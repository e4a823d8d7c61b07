/**
 Saving the address manager and loading it again: `CAddrMan::Serialize` and `CAddrMan::Unserialize`
 (src/addrman.h).  Neither vvTried, mapAddr nor vRandom is written; they are rebuilt.  std::map
 iteration is an arbitrary order here, so what is proved holds for every order.
 */
module AddrPersistence {
  import opened AddrTables
  import opened AddrCheck
  import opened AddrLeftovers
  import opened AddrMan

  /** What is written of an entry. */
  datatype Record = Record(addr: Service, services: set<nat>, time: nat, source: NetAddr, lastSuccess: int, attempts: nat)

  /** A file: the header, the records of both tables, and the bucket lists. */
  datatype Stored = Stored(version: nat, keySize: nat, key: Key, nNew: int, nTried: int, nUBuckets: int,
                           news: seq<Record>, tried: seq<Record>, buckets: seq<seq<int>>)

  function RecordOf(i: Info): Record {
    Record(i.addr, i.services, i.time, i.source, i.lastSuccess, i.attempts)
  }

  /** An entry as it comes out of a file; the time of the last try is not kept. */
  function Loaded(r: Record, randomPos: int, inTried: bool): Info {
    Info(r.addr, r.services, r.time, r.source, 0, r.lastSuccess, r.attempts, 0, inTried, randomPos)
  }

  const BIT30: int := 0x4000_0000

  /** Exclusive or with 2**30, for numbers below 2**31. */
  function Toggled(x: int): int {
    if x >= BIT30 then x - BIT30 else x + BIT30
  }

  // ----- what a file says about the tables it was made from

  /** The index `x` in the list of bucket `b` names the entry that is there. */
  ghost predicate Placed(h: Hashes, key: Key, t: Tables, order: seq<int>, b: nat, x: int) {
    && 0 <= x < |order| && order[x] in t.info
    && var s := NewSlot(h, key, t.info[order[x]].addr, b); s in t.news && t.news[s] == order[x]
  }

  ghost predicate Lists(order: seq<int>, list: seq<int>, n: int) {
    exists i :: 0 <= i < |list| && 0 <= list[i] < |order| && order[list[i]] == n
  }

  ghost predicate RecordsEntries(info: Infos, order: seq<int>, records: seq<Record>) {
    |records| == |order| && forall i :: 0 <= i < |order| ==> order[i] in info && records[i] == RecordOf(info[order[i]])
  }

  ghost predicate RecordsBuckets(h: Hashes, key: Key, t: Tables, order: seq<int>, buckets: seq<seq<int>>, n: nat) {
    && n <= |buckets|
    && (forall b, i :: 0 <= b < n && 0 <= i < |buckets[b]| ==> Placed(h, key, t, order, b, buckets[b][i]))
    && (forall s :: s in t.news && s.bucket < n ==> Lists(order, buckets[s.bucket], t.news[s]))
  }

  /** `s` is a file of the tables `t`, with the new entries written in the order `news` and the tried
      ones in the order `tried`. */
  ghost predicate Records(h: Hashes, key: Key, t: Tables, s: Stored, news: seq<int>, tried: seq<int>) {
    && s.version == 1 && s.keySize == 32 && s.key == key && s.nUBuckets == 0x4000_0400
    && Enumerates(news, NewIds(t.info)) && RecordsEntries(t.info, news, s.news) && s.nNew == |news|
    && Enumerates(tried, TriedIds(t.info)) && RecordsEntries(t.info, tried, s.tried) && s.nTried == |tried|
    && |s.buckets| == NEW_BUCKET_COUNT && RecordsBuckets(h, key, t, news, s.buckets, NEW_BUCKET_COUNT)
  }

  // ----- writing

  /** The indexes of the entries in the first `k` places of a bucket. */
  function BucketList(news: Table, unkIds: map<int, int>, b: nat, k: nat): seq<int>
    requires forall s :: s in news ==> news[s] in unkIds
  {
    if k == 0 then []
    else
      var rest := BucketList(news, unkIds, b, k - 1);
      if Slot(b, k - 1) in news then rest + [unkIds[news[Slot(b, k - 1)]]] else rest
  }

  method WriteBucket(m: Manager, unkIds: map<int, int>, b: nat) returns (list: seq<int>)
    requires forall s :: s in m.vvNew ==> m.vvNew[s] in unkIds
    ensures list == BucketList(m.vvNew, unkIds, b, BUCKET_SIZE)
  {
    list := [];
    for i := 0 to BUCKET_SIZE
      invariant list == BucketList(m.vvNew, unkIds, b, i)
    {
      if Slot(b, i) in m.vvNew {
        list := list + [unkIds[m.vvNew[Slot(b, i)]]];
      }
    }
  }

  /** `unkIds` gives the place of every new entry in `order`. */
  ghost predicate Indexes(order: seq<int>, unkIds: map<int, int>, ids: set<int>) {
    forall n :: n in ids ==> n in unkIds && 0 <= unkIds[n] < |order| && order[unkIds[n]] == n
  }

  lemma {:induction false} BucketListRecords(h: Hashes, key: Key, t: Tables, order: seq<int>, unkIds: map<int, int>, b: nat, k: nat)
    requires NewOk(h, key, t.info, t.news) && Indexes(order, unkIds, NewIds(t.info))
    requires forall s :: s in t.news ==> t.news[s] in unkIds
    ensures forall i :: 0 <= i < |BucketList(t.news, unkIds, b, k)| ==> Placed(h, key, t, order, b, BucketList(t.news, unkIds, b, k)[i])
    ensures forall p :: 0 <= p < k && Slot(b, p) in t.news ==> Lists(order, BucketList(t.news, unkIds, b, k), t.news[Slot(b, p)])
    decreases k
  {
    if k > 0 {
      BucketListRecords(h, key, t, order, unkIds, b, k - 1);
      var s, rest, list := Slot(b, k - 1), BucketList(t.news, unkIds, b, k - 1), BucketList(t.news, unkIds, b, k);
      if s in t.news {
        assert NewSlotOk(h, key, t.info, t.news, s);
        assert list[|rest|] == unkIds[t.news[s]];
      }
      forall p | 0 <= p < k && Slot(b, p) in t.news ensures Lists(order, list, t.news[Slot(b, p)]) {
        if p < k - 1 {
          var i :| 0 <= i < |rest| && 0 <= rest[i] < |order| && order[rest[i]] == t.news[Slot(b, p)];
          assert list[i] == rest[i];
        }
      }
    }
  }

  lemma OneMoreBucket(h: Hashes, key: Key, t: Tables, order: seq<int>, unkIds: map<int, int>, buckets: seq<seq<int>>, b: nat)
    requires NewOk(h, key, t.info, t.news) && Indexes(order, unkIds, NewIds(t.info))
    requires forall s :: s in t.news ==> t.news[s] in unkIds
    requires |buckets| == b && RecordsBuckets(h, key, t, order, buckets, b)
    ensures RecordsBuckets(h, key, t, order, buckets + [BucketList(t.news, unkIds, b, BUCKET_SIZE)], b + 1)
  {
    BucketListRecords(h, key, t, order, unkIds, b, BUCKET_SIZE);
    assert forall s :: s in t.news ==> NewSlotOk(h, key, t.info, t.news, s);
    hide NewOk, Placed, Lists, Indexes, BucketList;
    var more := buckets + [BucketList(t.news, unkIds, b, BUCKET_SIZE)];
    forall s | s in t.news && s.bucket < b + 1 ensures Lists(order, more[s.bucket], t.news[s]) {
      if s.bucket < b {
        assert more[s.bucket] == buckets[s.bucket];
      } else {
        assert NewSlotOk(h, key, t.info, t.news, s);
        assert s == Slot(b, s.pos);
      }
    }
  }

  /** The entries written so far, out of all but `left`. */
  ghost predicate Written(info: Infos, ids: set<int>, left: set<int>, order: seq<int>, records: seq<Record>) {
    && Enumerates(order, ids - left) && RecordsEntries(info, order, records)
  }

  lemma WriteOne(info: Infos, ids: set<int>, left: set<int>, order: seq<int>, records: seq<Record>, n: int)
    requires Written(info, ids, left, order, records) && n in left && ids <= info.Keys
    ensures n !in ids ==> Written(info, ids, left - {n}, order, records)
    ensures n in ids ==> |order| < |ids| && Written(info, ids, left - {n}, order + [n], records + [RecordOf(info[n])])
  {
    if n in ids {
      DistinctBound(order, ids - {n});
      forall k | k in ids - (left - {n}) ensures k in order + [n] {
        if k != n { assert k in ids - left; }
      }
    } else {
      forall k | k in ids - (left - {n}) ensures k in order { assert k in ids - left; }
    }
  }

  lemma IndexOne(info: Infos, left: set<int>, order: seq<int>, unkIds: map<int, int>, n: int)
    requires Indexes(order, unkIds, NewIds(info) - left) && n in left && n in info
    ensures Indexes(if n in NewIds(info) then order + [n] else order, unkIds[n := |order|], NewIds(info) - (left - {n}))
  {
    forall k | k in NewIds(info) - (left - {n}) && k != n ensures k in NewIds(info) - left {}
  }

  /** Between calls exactly the entries that are not tried have references. */
  lemma ReferencedIffNew(m: Manager, n: int)
    requires m.Valid() && n in m.mapInfo
    ensures m.mapInfo[n].refCount != 0 <==> n in NewIds(m.mapInfo)
  {
    if m.mapInfo[n].inTried {
      NoReferences(m.h, m.nKey, m.T(), n);
    }
  }

  /** The first loop of `Serialize`. */
  method WriteNew(m: Manager) returns (news: seq<Record>, unkIds: map<int, int>, ghost order: seq<int>)
    requires m.Valid()
    ensures Written(m.mapInfo, NewIds(m.mapInfo), {}, order, news)
    ensures unkIds.Keys == m.mapInfo.Keys && Indexes(order, unkIds, NewIds(m.mapInfo))
  {
    hide Manager.Valid, Written, Indexes;
    news, unkIds, order := [], map[], [];
    var ids := m.mapInfo.Keys;
    NothingWritten(m.mapInfo, NewIds(m.mapInfo), ids);
    while ids != {}
      invariant ids <= m.mapInfo.Keys && unkIds.Keys == m.mapInfo.Keys - ids && |order| == |news|
      invariant Written(m.mapInfo, NewIds(m.mapInfo), ids, order, news)
      invariant Indexes(order, unkIds, NewIds(m.mapInfo) - ids)
      decreases ids
    {
      Inhabited(ids);
      var n :| n in ids;
      ReferencedIffNew(m, n);
      WriteOne(m.mapInfo, NewIds(m.mapInfo), ids, order, news, n);
      IndexOne(m.mapInfo, ids, order, unkIds, n);
      unkIds := unkIds[n := |news|];
      if m.mapInfo[n].refCount != 0 {
        // this would mean nNew was wrong
        NewCount(m);
        assert |news| != m.nNew;
        news := news + [RecordOf(m.mapInfo[n])];
        order := order + [n];
      }
      ids := ids - {n};
    }
    assert NewIds(m.mapInfo) - {} == NewIds(m.mapInfo);
  }

  lemma NothingWritten(info: Infos, ids: set<int>, left: set<int>)
    requires ids <= left
    ensures Written(info, ids, left, [], [])
    ensures Indexes([], map[], ids - left)
  {
  }

  lemma NewCount(m: Manager)
    ensures m.Valid() ==> m.nNew == |NewIds(m.mapInfo)| && m.nTried == |TriedIds(m.mapInfo)|
  {
    m.CountsWithoutLimbo();
  }

  /** The second loop of `Serialize`. */
  method WriteTried(m: Manager) returns (tried: seq<Record>, ghost order: seq<int>)
    requires m.Valid()
    ensures Written(m.mapInfo, TriedIds(m.mapInfo), {}, order, tried)
  {
    hide Manager.Valid, Written;
    tried, order := [], [];
    var ids := m.mapInfo.Keys;
    NothingWritten(m.mapInfo, TriedIds(m.mapInfo), ids);
    while ids != {}
      invariant ids <= m.mapInfo.Keys && |order| == |tried|
      invariant Written(m.mapInfo, TriedIds(m.mapInfo), ids, order, tried)
      decreases ids
    {
      Inhabited(ids);
      var n :| n in ids;
      WriteOne(m.mapInfo, TriedIds(m.mapInfo), ids, order, tried, n);
      if m.mapInfo[n].inTried {
        // this would mean nTried was wrong
        NewCount(m);
        assert |tried| != m.nTried;
        tried := tried + [RecordOf(m.mapInfo[n])];
        order := order + [n];
      }
      ids := ids - {n};
    }
  }

  /** `Serialize`.  Neither of its assertions on the counters fails. */
  method Serialize(m: Manager) returns (s: Stored, ghost news: seq<int>, ghost tried: seq<int>)
    requires m.Valid()
    ensures Records(m.h, m.nKey, m.T(), s, news, tried)
  {
    var newRecords, unkIds, triedRecords;
    newRecords, unkIds, news := WriteNew(m);
    triedRecords, tried := WriteTried(m);
    NewSlotsKnown(m, unkIds);
    hide Manager.Valid, Indexes, NewSlotOk, Placed, Lists;
    var buckets: seq<seq<int>> := [];
    for b := 0 to NEW_BUCKET_COUNT
      invariant |buckets| == b && RecordsBuckets(m.h, m.nKey, m.T(), news, buckets, b)
    {
      var list := WriteBucket(m, unkIds, b);
      OneMoreBucket(m.h, m.nKey, m.T(), news, unkIds, buckets, b);
      buckets := buckets + [list];
    }
    NewCount(m);
    WrittenAll(m.mapInfo, NewIds(m.mapInfo), news, newRecords);
    WrittenAll(m.mapInfo, TriedIds(m.mapInfo), tried, triedRecords);
    s := Stored(1, 32, m.nKey, m.nNew, m.nTried, Toggled(NEW_BUCKET_COUNT), newRecords, triedRecords, buckets);
  }

  lemma WrittenAll(info: Infos, ids: set<int>, order: seq<int>, records: seq<Record>)
    requires Written(info, ids, {}, order, records)
    ensures Enumerates(order, ids) && RecordsEntries(info, order, records) && |order| == |ids|
  {
    assert ids - {} == ids;
    EnumerationCounts(order, ids);
  }

  lemma NewSlotsKnown(m: Manager, unkIds: map<int, int>)
    requires m.Valid() && unkIds.Keys == m.mapInfo.Keys
    ensures NewOk(m.h, m.nKey, m.mapInfo, m.vvNew) && forall s :: s in m.vvNew ==> m.vvNew[s] in unkIds
  {
    forall s | s in m.vvNew ensures m.vvNew[s] in unkIds {
      assert NewSlotOk(m.h, m.nKey, m.mapInfo, m.vvNew, s);
    }
  }

  // ----- reading

  function UBuckets(s: Stored): int {
    if s.version != 0 then Toggled(s.nUBuckets) else s.nUBuckets
  }

  /** The bucket lists can be used only in this version and with this many buckets. */
  predicate Usable(s: Stored) {
    s.version == 1 && UBuckets(s) == NEW_BUCKET_COUNT
  }

  /** The file holds everything its header announces. */
  predicate Complete(s: Stored) {
    s.nNew == |s.news| && s.nTried == |s.tried| && |s.buckets| == if UBuckets(s) < 0 then 0 else UBuckets(s)
  }

  /** No address is in the file twice, and the times are such as are written. */
  ghost predicate Consistent(s: Stored) {
    && (forall i, j :: 0 <= i < j < |s.news + s.tried| ==> (s.news + s.tried)[i].addr.ip != (s.news + s.tried)[j].addr.ip)
    && (forall i :: 0 <= i < |s.news| ==> s.news[i].lastSuccess >= 0)
    && (forall i :: 0 <= i < |s.tried| ==> s.tried[i].lastSuccess > 0)
  }

  /** The counters as far as entries have been read. */
  ghost function AsIf(t: Tables, idCount: int, nNew: int, nTried: int): Tables {
    t.(idCount := idCount, nNew := nNew, nTried := nTried)
  }

  /** The entries read so far: new ones under the first ids, then the tried ones listed in `from`. */
  ghost predicate Read(info: Infos, s: Stored, k: nat, from: seq<nat>) {
    && k <= |s.news| && (from != [] ==> k == |s.news|)
    && (forall j :: j in info <==> 0 <= j < k + |from|)
    && (forall j :: 0 <= j < k ==> info[j] == Loaded(s.news[j], j, false).(refCount := info[j].refCount))
    && (forall j :: 0 <= j < |from| ==> from[j] < |s.tried| && info[k + j] == Loaded(s.tried[from[j]], k + j, true))
  }

  lemma UnreadIsUnknown(h: Hashes, key: Key, t: Tables, s: Stored, k: nat, from: seq<nat>, next: nat)
    requires Agree(h, key, t, {}) && Read(t.info, s, k, from) && Consistent(s) && next < |s.news + s.tried|
    requires k <= next && forall j :: 0 <= j < |from| ==> |s.news| + from[j] < next
    ensures (s.news + s.tried)[next].addr.ip !in t.addr
  {
    var all := s.news + s.tried;
    assert AddrOk(t.info, t.addr);
    hide Agree;
    forall j | j in t.info ensures t.info[j].addr.ip != all[next].addr.ip {
      if j < k {
        assert all[j] == s.news[j];
      } else {
        assert t.info[k + (j - k)].addr == s.tried[from[j - k]].addr == all[|s.news| + from[j - k]].addr;
      }
    }
  }

  /** Reading a record into an entry leaves what is kept in memory only. */
  function ReadInto(i: Info, r: Record, randomPos: int): Info {
    Info(r.addr, r.services, r.time, r.source, i.lastTry, r.lastSuccess, r.attempts, i.refCount, i.inTried, randomPos)
  }

  const Blank: Info := Info(Service(0, 0), {}, 0, 0, 0, 0, 0, 0, false, -1)

  /** The tables of the file so far: without the old entries, and with the counters as far as it has been read. */
  ghost function Part(t: Tables, stale: Infos, b: int, c: int, ips: set<NetAddr>, nNew: int, nTried: int): Tables {
    AsIf(Own(t, stale, b, c, ips), c, nNew, nTried)
  }

  ghost predicate Beside(t: Tables, stale: Infos, b: int, c: int, ips: set<NetAddr>) {
    Stays(t.info, stale, b, c) && ips <= t.addr.Keys && b <= c
  }

  /** The old addresses that are not among those read so far. */
  ghost function LeftIps(was: set<NetAddr>, s: Stored, k: nat, from: seq<nat>): set<NetAddr> {
    set ip | ip in was && !Named(s, k, from, ip)
  }

  ghost predicate Named(s: Stored, k: nat, from: seq<nat>, ip: NetAddr) {
    || (exists j :: 0 <= j < k && j < |s.news| && s.news[j].addr.ip == ip)
    || (exists j :: 0 <= j < |from| && from[j] < |s.tried| && s.tried[from[j]].addr.ip == ip)
  }

  lemma NamedNew(was: set<NetAddr>, s: Stored, k: nat)
    requires k < |s.news|
    ensures LeftIps(was, s, k + 1, []) == LeftIps(was, s, k, []) - {s.news[k].addr.ip}
  {
    forall ip ensures Named(s, k + 1, [], ip) <==> Named(s, k, [], ip) || ip == s.news[k].addr.ip {}
  }

  lemma NamedTried(was: set<NetAddr>, s: Stored, k: nat, from: seq<nat>, n: nat)
    requires n < |s.tried|
    ensures LeftIps(was, s, k, from + [n]) == LeftIps(was, s, k, from) - {s.tried[n].addr.ip}
  {
    forall ip ensures Named(s, k, from + [n], ip) <==> Named(s, k, from, ip) || ip == s.tried[n].addr.ip {
      if Named(s, k, from, ip) && exists j :: 0 <= j < |from| && from[j] < |s.tried| && s.tried[from[j]].addr.ip == ip {
        var j :| 0 <= j < |from| && from[j] < |s.tried| && s.tried[from[j]].addr.ip == ip;
        assert (from + [n])[j] == from[j];
      }
      assert (from + [n])[|from|] == n;
    }
  }

  /** What is not old under an id not read yet is not there. */
  lemma NotThereYet(t: Tables, stale: Infos, n: int)
    requires n !in OwnInfo(t.info, stale, n, n) && n !in stale
    ensures n !in t.info
  {
  }

  /** One turn of the first loop of `Unserialize`. */
  method TakeNew(m: Manager, n: nat, r: Record, usable: bool, ghost stale: Infos, ghost ips: set<NetAddr>)
    requires Agree(m.h, m.nKey, Part(m.T(), stale, n, n, ips, n, 0), {}) && Beside(m.T(), stale, n, n, ips)
    requires r.addr.ip !in m.mapAddr - ips
    modifies m`mapInfo, m`mapAddr, m`vRandom, m`vvNew
    ensures Agree(m.h, m.nKey, Part(m.T(), stale, n + 1, n + 1, ips - {r.addr.ip}, n + 1, 0), {})
    ensures Beside(m.T(), stale, n + 1, n + 1, ips - {r.addr.ip})
    ensures TookNew(old(OwnInfo(m.mapInfo, stale, n, n)), OwnInfo(m.mapInfo, stale, n + 1, n + 1), n, r, |old(m.vRandom)|)
    ensures |m.vRandom| == |old(m.vRandom)| + 1 && (usable ==> m.vvNew == old(m.vvNew))
  {
    hide Agree, OwnInfo, Stays;
    ghost var t, ips' := AsIf(m.T(), n, n, 0), ips - {r.addr.ip};
    var info := ReadInto(if n in m.mapInfo then m.mapInfo[n] else Blank, r, |m.vRandom|);
    ghost var i := Loaded(r, |m.vRandom|, false);
    CreateKeepsAgree(m.h, m.nKey, Own(t, stale, n, n, ips), i);
    ReadOver(t, stale, n, r, i, info);
    m.mapInfo := m.mapInfo[n := info];
    m.mapAddr := m.mapAddr[r.addr.ip := n];
    m.vRandom := m.vRandom + [n];
    ghost var t' := AsIf(m.T(), n + 1, n + 1, 0);
    OwnCreated(t, t', stale, n, i, ips);
    if !usable {
      // try to give it a reference based on its primary source address
      var bucket := m.h.newBucket(m.nKey, r.addr, r.source);
      var slot := NewSlot(m.h, m.nKey, r.addr, bucket);
      if slot !in m.vvNew {
        OwnFilled(m.h, m.nKey, t', stale, n + 1, n + 1, ips', n, bucket);
        FillSlotKeepsAgree(m.h, m.nKey, Own(t', stale, n + 1, n + 1, ips'), {}, n, bucket);
        m.vvNew := m.vvNew[slot := n];
        m.mapInfo := m.mapInfo[n := m.mapInfo[n].(refCount := m.mapInfo[n].refCount + 1)];
        assert AsIf(m.T(), n + 1, n + 1, 0) == SlotFilled(m.h, m.nKey, t', n, bucket);
      }
    }
  }

  ghost predicate TookNew(info: Infos, info': Infos, n: int, r: Record, pos: int) {
    n in info' && 0 <= info'[n].refCount <= 1 && info' == info[n := Loaded(r, pos, false).(refCount := info'[n].refCount)]
  }

  /** A record read over an old entry, without what that adds, is the record. */
  lemma ReadOver(t: Tables, stale: Infos, n: int, r: Record, i: Info, info: Info)
    requires n !in OwnInfo(t.info, stale, n, n) && Stays(t.info, stale, n, n) && i == Loaded(r, |t.random|, false)
    requires info == ReadInto(if n in t.info then t.info[n] else Blank, r, |t.random|)
    ensures if n in stale then Adjusted(info, stale[n]) == i && info.inTried == stale[n].inTried else info == i
  {
    if n !in stale { NotThereYet(t, stale, n); }
  }

  /** An entry read straight into the tried table. */
  ghost function TookTried(h: Hashes, key: Key, t: Tables, r: Record): Tables {
    var i := Loaded(r, |t.random|, true);
    t.(idCount := t.idCount + 1, info := t.info[t.idCount := i], addr := t.addr[r.addr.ip := t.idCount],
       random := t.random + [t.idCount], tried := t.tried[TriedSlot(h, key, r.addr) := t.idCount], nTried := t.nTried + 1)
  }

  lemma TakeTriedKeepsAgree(h: Hashes, key: Key, t: Tables, r: Record)
    requires Agree(h, key, t, {}) && r.addr.ip !in t.addr && TriedSlot(h, key, r.addr) !in t.tried
    ensures t.idCount !in t.info && Agree(h, key, TookTried(h, key, t, r), {})
  {
    hide Agree;
    var n, i := t.idCount, Loaded(r, |t.random|, false);
    CreateKeepsAgree(h, key, t, i);
    var t1 := Created(t, i);
    LimboCounts(h, key, t1, {}, n);
    var t2 := t1.(nNew := t1.nNew - 1);
    var none: set<int> := {};
    assert none + {n} == {n} && {n} - {n} == none;
    EnterTriedKeepsAgree(h, key, t2, {n}, n);
    var t3 := EnteredTried(h, key, t2, n);
    assert t3.info == t.info[n := Loaded(r, |t.random|, true)];
    assert t3 == TookTried(h, key, t, r);
  }

  /** One turn of the second loop of `Unserialize`: the entry is lost if its slot is taken. */
  method TakeTried(m: Manager, r: Record, ghost nNew: int, ghost nTried: int, ghost stale: Infos, ghost ips: set<NetAddr>)
    returns (lost: bool)
    requires Agree(m.h, m.nKey, Part(m.T(), stale, nNew, m.nIdCount, ips, nNew, nTried), {})
    requires Beside(m.T(), stale, nNew, m.nIdCount, ips) && r.addr.ip !in m.mapAddr - ips
    modifies m`mapInfo, m`mapAddr, m`vRandom, m`vvTried, m`nIdCount
    ensures lost <==> TriedSlot(m.h, m.nKey, r.addr) in old(m.vvTried)
    ensures lost ==> m.T() == old(m.T())
    ensures !lost ==> Agree(m.h, m.nKey, Part(m.T(), stale, nNew, m.nIdCount, ips - {r.addr.ip}, nNew, nTried + 1), {})
    ensures !lost ==> Beside(m.T(), stale, nNew, m.nIdCount, ips - {r.addr.ip})
    ensures !lost ==> m.nIdCount == old(m.nIdCount) + 1 && |m.vRandom| == |old(m.vRandom)| + 1
    ensures !lost ==> OwnInfo(m.mapInfo, stale, nNew, m.nIdCount) ==
                        old(OwnInfo(m.mapInfo, stale, nNew, m.nIdCount))[old(m.nIdCount) := Loaded(r, |old(m.vRandom)|, true)]
  {
    hide Agree, OwnInfo, Stays;
    var slot := TriedSlot(m.h, m.nKey, r.addr);
    if slot in m.vvTried {
      return true;
    }
    ghost var t, own := m.T(), Part(m.T(), stale, nNew, m.nIdCount, ips, nNew, nTried);
    TakeTriedKeepsAgree(m.h, m.nKey, own, r);
    var info := Loaded(r, |m.vRandom|, true);
    m.vRandom := m.vRandom + [m.nIdCount];
    m.mapInfo := m.mapInfo[m.nIdCount := info];
    m.mapAddr := m.mapAddr[r.addr.ip := m.nIdCount];
    m.vvTried := m.vvTried[slot := m.nIdCount];
    OwnReplaced(t, m.T(), stale, nNew, m.nIdCount, info, ips);
    m.nIdCount := m.nIdCount + 1;
    assert Part(m.T(), stale, nNew, m.nIdCount, ips - {r.addr.ip}, nNew, nTried + 1) == TookTried(m.h, m.nKey, own, r);
    return false;
  }

  ghost predicate RefsAtMost(info: Infos) {
    forall j :: j in info ==> 0 <= info[j].refCount <= NEW_BUCKETS_PER_ADDRESS
  }

  /** The first loop of `Unserialize`. */
  method ReadNew(m: Manager, s: Stored, ghost stale: Infos, ghost was: set<NetAddr>)
    requires Complete(s) && Consistent(s) && Leftover(stale)
    requires m.mapInfo == stale && m.mapAddr.Keys == was && m.vRandom == [] && m.vvNew == map[] && m.vvTried == map[]
    modifies m`mapInfo, m`mapAddr, m`vRandom, m`vvNew
    ensures var n, ips := |s.news|, LeftIps(was, s, |s.news|, []);
            && Agree(m.h, m.nKey, Part(m.T(), stale, n, n, ips, n, 0), {}) && Beside(m.T(), stale, n, n, ips)
            && Read(OwnInfo(m.mapInfo, stale, n, n), s, n, []) && RefsAtMost(OwnInfo(m.mapInfo, stale, n, n))
    ensures |m.vRandom| == |s.news| && (Usable(s) ==> m.vvNew == map[])
  {
    hide Agree, Consistent, Read, RefsAtMost, Loaded, Own, OwnInfo, Beside, LeftIps, TookNew;
    ghost var ips := LeftIps(was, s, 0, []);
    ReadStarts(m.h, m.nKey, m.T(), s, stale, was);
    for n := 0 to |s.news|
      invariant ips == LeftIps(was, s, n, []) && Beside(m.T(), stale, n, n, ips) && |m.vRandom| == n
      invariant Agree(m.h, m.nKey, Part(m.T(), stale, n, n, ips, n, 0), {})
      invariant Read(OwnInfo(m.mapInfo, stale, n, n), s, n, []) && RefsAtMost(OwnInfo(m.mapInfo, stale, n, n))
      invariant Usable(s) ==> m.vvNew == map[]
    {
      OwnParts(m.T(), stale, n, n, ips);
      UnreadIsUnknown(m.h, m.nKey, Part(m.T(), stale, n, n, ips, n, 0), s, n, [], n);
      ghost var info := OwnInfo(m.mapInfo, stale, n, n);
      TakeNew(m, n, s.news[n], Usable(s), stale, ips);
      ReadOneNew(info, OwnInfo(m.mapInfo, stale, n + 1, n + 1), s, n);
      NamedNew(was, s, n);
      ips := ips - {s.news[n].addr.ip};
    }
  }

  lemma OwnParts(t: Tables, stale: Infos, b: int, c: int, ips: set<NetAddr>)
    ensures Own(t, stale, b, c, ips).info == OwnInfo(t.info, stale, b, c) && Own(t, stale, b, c, ips).addr == t.addr - ips
    ensures Own(t, stale, b, c, ips).tried == t.tried && Own(t, stale, b, c, ips).news == t.news
    ensures Own(t, stale, b, c, ips).nNew == t.nNew && Own(t, stale, b, c, ips).nTried == t.nTried
  {
  }

  /** After `Clear` there is nothing but old entries. */
  lemma ReadStarts(h: Hashes, key: Key, t: Tables, s: Stored, stale: Infos, was: set<NetAddr>)
    requires t == t.(info := stale, random := [], news := map[], tried := map[]) && t.addr.Keys == was && Leftover(stale)
    ensures var ips := LeftIps(was, s, 0, []);
            && Agree(h, key, Part(t, stale, 0, 0, ips, 0, 0), {}) && Beside(t, stale, 0, 0, ips)
            && Read(OwnInfo(t.info, stale, 0, 0), s, 0, []) && RefsAtMost(OwnInfo(t.info, stale, 0, 0))
  {
    var ips := LeftIps(was, s, 0, []);
    forall ip ensures !Named(s, 0, [], ip) {}
    assert ips == was;
    SameIds(OwnInfo(t.info, stale, 0, 0).Keys, {});
    assert OwnInfo(t.info, stale, 0, 0) == map[];
    assert t.addr - ips == map[];
    NothingAgrees(h, key, Part(t, stale, 0, 0, ips, 0, 0), s);
  }

  lemma NothingAgrees(h: Hashes, key: Key, t: Tables, s: Stored)
    requires t == Tables(0, map[], map[], [], 0, map[], 0, map[])
    ensures Agree(h, key, t, {}) && Read(t.info, s, 0, []) && RefsAtMost(t.info)
  {
  }

  lemma ReadOneNew(info: Infos, info': Infos, s: Stored, n: nat)
    requires Read(info, s, n, []) && n < |s.news| && RefsAtMost(info) && TookNew(info, info', n, s.news[n], n)
    ensures Read(info', s, n + 1, []) && RefsAtMost(info')
  {
  }

  /** No two records of the file want the same place in the tried table. */
  ghost predicate NoClash(h: Hashes, s: Stored) {
    forall i, j :: 0 <= i < j < |s.tried| ==> TriedSlot(h, s.key, s.tried[i].addr) != TriedSlot(h, s.key, s.tried[j].addr)
  }

  ghost predicate Identity(from: seq<nat>) {
    forall i :: 0 <= i < |from| ==> from[i] == i
  }

  /** One of these records has this slot. */
  predicate Taken(h: Hashes, s: Stored, from: seq<nat>, slot: Slot) {
    exists j :: 0 <= j < |from| && from[j] < |s.tried| && TriedSlot(h, s.key, s.tried[from[j]].addr) == slot
  }

  /** Of the first `n` tried records, those whose slot no earlier one has. */
  function Kept(h: Hashes, s: Stored, n: nat): seq<nat>
    requires n <= |s.tried|
  {
    if n == 0 then []
    else
      var kept := Kept(h, s, n - 1);
      if Taken(h, s, kept, TriedSlot(h, s.key, s.tried[n - 1].addr)) then kept else kept + [n - 1]
  }

  lemma {:induction false} KeptAll(h: Hashes, s: Stored, n: nat)
    requires NoClash(h, s) && n <= |s.tried|
    ensures |Kept(h, s, n)| == n && Identity(Kept(h, s, n))
    decreases n
  {
    hide TriedSlot;
    if n > 0 { KeptAll(h, s, n - 1); }
  }

  lemma TakenIff(h: Hashes, t: Tables, s: Stored, from: seq<nat>, slot: Slot)
    requires Agree(h, s.key, t, {}) && Read(t.info, s, |s.news|, from)
    ensures slot in t.tried <==> Taken(h, s, from, slot)
  {
    assert TriedOk(h, s.key, t.info, t.tried);
    hide Agree, TriedSlot;
    if slot in t.tried {
      var j := t.tried[slot];
      assert j in t.info && t.info[j].inTried;
      assert t.info[|s.news| + (j - |s.news|)] == Loaded(s.tried[from[j - |s.news|]], j, true);
    }
    if Taken(h, s, from, slot) {
      var j :| 0 <= j < |from| && from[j] < |s.tried| && TriedSlot(h, s.key, s.tried[from[j]].addr) == slot;
      assert t.info[|s.news| + j] == Loaded(s.tried[from[j]], |s.news| + j, true);
    }
  }

  /** The second loop of `Unserialize`. */
  method ReadTried(m: Manager, s: Stored, ghost stale: Infos, ghost was: set<NetAddr>) returns (nLost: nat)
    requires Complete(s) && Consistent(s) && m.nIdCount == |s.news| && m.nKey == s.key
    requires var n, ips := |s.news|, LeftIps(was, s, |s.news|, []);
             && Agree(m.h, m.nKey, Part(m.T(), stale, n, n, ips, n, 0), {}) && Beside(m.T(), stale, n, n, ips)
             && Read(OwnInfo(m.mapInfo, stale, n, n), s, n, []) && RefsAtMost(OwnInfo(m.mapInfo, stale, n, n))
    requires |m.vRandom| == |s.news|
    modifies m`mapInfo, m`mapAddr, m`vRandom, m`vvTried, m`nIdCount
    ensures var from := Kept(m.h, s, |s.tried|);
            var n, c, ips := |s.news|, |s.news| + |from|, LeftIps(was, s, |s.news|, from);
            && nLost + |from| == |s.tried| && m.nIdCount == c
            && Agree(m.h, m.nKey, Part(m.T(), stale, n, c, ips, n, |from|), {}) && Beside(m.T(), stale, n, c, ips)
            && Read(OwnInfo(m.mapInfo, stale, n, c), s, n, from) && RefsAtMost(OwnInfo(m.mapInfo, stale, n, c))
  {
    hide Agree, Consistent, Loaded, TriedSlot, Own, OwnInfo, Beside, LeftIps, Read, RefsAtMost, Taken;
    nLost := 0;
    ghost var from: seq<nat> := [];
    ghost var ips := LeftIps(was, s, |s.news|, from);
    for n := 0 to |s.tried|
      invariant from == Kept(m.h, s, n) && ips == LeftIps(was, s, |s.news|, from) && |from| == n - nLost
      invariant m.nIdCount == |m.vRandom| == |s.news| + |from| && Beside(m.T(), stale, |s.news|, m.nIdCount, ips)
      invariant Agree(m.h, m.nKey, Part(m.T(), stale, |s.news|, m.nIdCount, ips, |s.news|, |from|), {})
      invariant Read(OwnInfo(m.mapInfo, stale, |s.news|, m.nIdCount), s, |s.news|, from)
      invariant RefsAtMost(OwnInfo(m.mapInfo, stale, |s.news|, m.nIdCount))
      invariant forall i :: 0 <= i < |from| ==> from[i] < n
    {
      ghost var t, info := Part(m.T(), stale, |s.news|, m.nIdCount, ips, |s.news|, |from|), OwnInfo(m.mapInfo, stale, |s.news|, m.nIdCount);
      OwnParts(m.T(), stale, |s.news|, m.nIdCount, ips);
      UnreadIsUnknown(m.h, m.nKey, t, s, |s.news|, from, |s.news| + n);
      TakenIff(m.h, t, s, from, TriedSlot(m.h, s.key, s.tried[n].addr));
      var lost := TakeTried(m, s.tried[n], |s.news|, |from|, stale, ips);
      if lost {
        nLost := nLost + 1;
      } else {
        ReadOneMore(info, OwnInfo(m.mapInfo, stale, |s.news|, m.nIdCount), s, from, n);
        NamedTried(was, s, |s.news|, from, n);
        ips := ips - {s.tried[n].addr.ip};
        from := from + [n];
      }
    }
  }

  lemma ReadOneMore(info: Infos, info': Infos, s: Stored, from: seq<nat>, n: nat)
    requires Read(info, s, |s.news|, from) && n < |s.tried| && RefsAtMost(info)
    requires info' == info[|s.news| + |from| := Loaded(s.tried[n], |s.news| + |from|, true)]
    ensures Read(info', s, |s.news|, from + [n]) && RefsAtMost(info')
  {
  }

  ghost predicate SameButRefs(info: Infos, info': Infos) {
    && (forall j :: j in info <==> j in info')
    && (forall j :: j in info' ==> info'[j] == info[j].(refCount := info'[j].refCount))
  }

  ghost predicate FirstAreNew(info: Infos, n: int) {
    forall j :: 0 <= j < n ==> j in info && !info[j].inTried
  }

  /** Every slot in use in `b` holds the entry that `a` has there, under its new id. */
  ghost predicate PartOf(a: Table, b: Table, order: seq<int>) {
    forall s :: s in b ==> s in a && 0 <= b[s] < |order| && order[b[s]] == a[s]
  }

  /** The first ids stand for the entries of `t` in this order. */
  ghost predicate StandFor(t: Tables, info: Infos, order: seq<int>) {
    forall x :: 0 <= x < |order| ==> x in info && order[x] in t.info && info[x].addr == t.info[order[x]].addr
  }

  /** What is known of the tables the file was made from, while its bucket lists are read. */
  ghost predicate Restoring(h: Hashes, key: Key, t: Tables, info: Infos, news: Table, order: seq<int>) {
    NewOk(h, key, t.info, t.news) && RefsBounded(t.info, {}) && StandFor(t, info, order) && PartOf(t.news, news, order)
  }

  /** There is room for a reference that was there before. */
  lemma RoomForReference(h: Hashes, key: Key, t: Tables, info: Infos, news: Table, order: seq<int>, b: nat, x: int)
    requires Restoring(h, key, t, info, news, order) && NewOk(h, key, info, news)
    requires Placed(h, key, t, order, b, x) && NewSlot(h, key, info[x].addr, b) !in news
    ensures info[x].refCount < NEW_BUCKETS_PER_ADDRESS
  {
    var n, slot := order[x], NewSlot(h, key, info[x].addr, b);
    assert NewSlotOk(h, key, t.info, t.news, slot);
    assert Refs(news, x) <= Refs(t.news, n) - {slot};
    SlotsCount(Refs(news, x), Refs(t.news, n) - {slot});
  }

  /** The tables after reading index `x` in the list of bucket `b`. */
  function PositionRead(h: Hashes, key: Key, t: Tables, usable: bool, b: nat, x: int): Tables {
    if usable && 0 <= x < t.nNew && x in t.info && NewSlot(h, key, t.info[x].addr, b) !in t.news && t.info[x].refCount < NEW_BUCKETS_PER_ADDRESS
    then SlotFilled(h, key, t, x, b) else t
  }

  /** The old entries, and how far the file has been read over them. */
  datatype Old = Old(stale: Infos, b: int, c: int, ips: set<NetAddr>)

  /** The tables of the file alone. */
  ghost function Mine(t: Tables, o: Old): Tables {
    Own(t, o.stale, o.b, o.c, o.ips)
  }

  ghost predicate MineOk(h: Hashes, key: Key, t: Tables, o: Old) {
    && Leftover(o.stale) && Beside(t, o.stale, o.b, o.c, o.ips)
    && Agree(h, key, Mine(t, o), {}) && RefsAtMost(Mine(t, o).info)
  }

  /** No record was read into the place of an old entry. */
  ghost predicate NoneBelow(o: Old) {
    forall n :: n in o.stale ==> n >= o.b
  }

  /** One turn of the loop that reads a bucket list. */
  method ReadPosition(m: Manager, usable: bool, b: nat, x: int, ghost o: Old)
    requires MineOk(m.h, m.nKey, m.T(), o) && FirstAreNew(Mine(m.T(), o).info, m.nNew) && m.nNew == o.b && (usable ==> b < NEW_BUCKET_COUNT)
    modifies m`mapInfo, m`vvNew
    ensures MineOk(m.h, m.nKey, m.T(), o) && SameButRefs(old(Mine(m.T(), o).info), Mine(m.T(), o).info)
    ensures NoneBelow(o) ==> Mine(m.T(), o) == PositionRead(m.h, m.nKey, old(Mine(m.T(), o)), usable, b, x)
  {
    hide Agree, OwnInfo, Stays, NewSlot;
    if 0 <= x < m.nNew {
      ghost var t := m.T();
      assert x in Mine(t, o).info;
      OwnBelow(t.info, o, x);
      var slot := NewSlot(m.h, m.nKey, m.mapInfo[x].addr, b);
      if usable && slot !in m.vvNew && m.mapInfo[x].refCount < NEW_BUCKETS_PER_ADDRESS {
        OwnFilled(m.h, m.nKey, t, o.stale, o.b, o.c, o.ips, x, b);
        FillSlotKeepsAgree(m.h, m.nKey, Mine(t, o), {}, x, b);
        m.mapInfo := m.mapInfo[x := m.mapInfo[x].(refCount := m.mapInfo[x].refCount + 1)];
        m.vvNew := m.vvNew[slot := x];
        assert m.T() == SlotFilled(m.h, m.nKey, t, x, b);
      }
    }
  }

  lemma OwnBelow(info: Infos, o: Old, x: int)
    requires x in OwnInfo(info, o.stale, o.b, o.c) && x < o.b && Leftover(o.stale)
    ensures x in info && OwnInfo(info, o.stale, o.b, o.c)[x].addr == info[x].addr
    ensures OwnInfo(info, o.stale, o.b, o.c)[x].refCount <= info[x].refCount
    ensures NoneBelow(o) ==> OwnInfo(info, o.stale, o.b, o.c)[x] == info[x]
  {
  }

  lemma PositionRestored(h: Hashes, key: Key, t: Tables, now: Tables, order: seq<int>, b: nat, x: int)
    requires Agree(h, key, now, {}) && Restoring(h, key, t, now.info, now.news, order) && Placed(h, key, t, order, b, x)
    requires |order| == now.nNew
    ensures var after := PositionRead(h, key, now, true, b, x);
            && Restoring(h, key, t, after.info, after.news, order)
            && NewSlot(h, key, t.info[order[x]].addr, b) in after.news && now.news.Keys <= after.news.Keys
  {
    var slot := NewSlot(h, key, now.info[x].addr, b);
    if slot !in now.news {
      RoomForReference(h, key, t, now.info, now.news, order, b, x);
    }
    hide Agree, NewOk, RefsBounded;
  }

  /** Every entry that the list of bucket `b` names is in that bucket. */
  ghost predicate Covered(h: Hashes, key: Key, t: Tables, order: seq<int>, b: nat, list: seq<int>, news: Table) {
    forall i :: 0 <= i < |list| ==>
      Placed(h, key, t, order, b, list[i]) && NewSlot(h, key, t.info[order[list[i]]].addr, b) in news
  }

  /** Reading one bucket list.  `restoring` tells whether it was made from the tables `t`. */
  method ReadBucket(m: Manager, usable: bool, b: nat, list: seq<int>, ghost o: Old, ghost restoring: bool, ghost t: Tables, ghost order: seq<int>)
    requires MineOk(m.h, m.nKey, m.T(), o) && FirstAreNew(Mine(m.T(), o).info, m.nNew) && m.nNew == o.b && (usable ==> b < NEW_BUCKET_COUNT)
    requires restoring ==> usable && |order| == m.nNew && NoneBelow(o) && Restoring(m.h, m.nKey, t, Mine(m.T(), o).info, m.vvNew, order)
    requires restoring ==> forall i :: 0 <= i < |list| ==> Placed(m.h, m.nKey, t, order, b, list[i])
    modifies m`mapInfo, m`vvNew
    ensures MineOk(m.h, m.nKey, m.T(), o) && SameButRefs(old(Mine(m.T(), o).info), Mine(m.T(), o).info)
    ensures restoring ==> old(m.vvNew).Keys <= m.vvNew.Keys
    ensures restoring ==> Restoring(m.h, m.nKey, t, Mine(m.T(), o).info, m.vvNew, order) && Covered(m.h, m.nKey, t, order, b, list, m.vvNew)
  {
    hide Agree, RefsAtMost, Restoring, Placed, PositionRead, OwnInfo, Stays, Beside;
    ghost var was := Mine(m.T(), o).info;
    for i := 0 to |list|
      invariant MineOk(m.h, m.nKey, m.T(), o) && SameButRefs(was, Mine(m.T(), o).info)
      invariant restoring ==> old(m.vvNew).Keys <= m.vvNew.Keys
      invariant restoring ==> Restoring(m.h, m.nKey, t, Mine(m.T(), o).info, m.vvNew, order)
      invariant restoring ==> Covered(m.h, m.nKey, t, order, b, list[..i], m.vvNew)
    {
      if restoring { PositionRestored(m.h, m.nKey, t, Mine(m.T(), o), order, b, list[i]); }
      ReadPosition(m, usable, b, list[i], o);
    }
    assert list[..|list|] == list;
  }

  /** The third loop of `Unserialize`. */
  method ReadBuckets(m: Manager, s: Stored, ghost o: Old, ghost restoring: bool, ghost t: Tables, ghost order: seq<int>)
    requires Complete(s) && MineOk(m.h, m.nKey, m.T(), o) && FirstAreNew(Mine(m.T(), o).info, m.nNew) && m.nNew == o.b
    requires restoring ==> Usable(s) && |order| == m.nNew && NoneBelow(o) && Restoring(m.h, m.nKey, t, Mine(m.T(), o).info, m.vvNew, order)
    requires restoring ==> |s.buckets| == NEW_BUCKET_COUNT && RecordsBuckets(m.h, m.nKey, t, order, s.buckets, NEW_BUCKET_COUNT)
    modifies m`mapInfo, m`vvNew
    ensures MineOk(m.h, m.nKey, m.T(), o) && SameButRefs(old(Mine(m.T(), o).info), Mine(m.T(), o).info)
    ensures restoring ==> Restoring(m.h, m.nKey, t, Mine(m.T(), o).info, m.vvNew, order) && t.news.Keys <= m.vvNew.Keys
  {
    hide MineOk, Mine, Restoring, Placed, Covered, Lists;
    ghost var was := Mine(m.T(), o).info;
    for b := 0 to |s.buckets|
      invariant MineOk(m.h, m.nKey, m.T(), o) && SameButRefs(was, Mine(m.T(), o).info)
      invariant restoring ==> Restoring(m.h, m.nKey, t, Mine(m.T(), o).info, m.vvNew, order)
      invariant restoring ==> forall c :: 0 <= c < b ==> Covered(m.h, m.nKey, t, order, c, s.buckets[c], m.vvNew)
    {
      ghost var before := m.vvNew;
      ReadBucket(m, Usable(s), b, s.buckets[b], o, restoring, t, order);
      if restoring {
        forall c | 0 <= c < b ensures Covered(m.h, m.nKey, t, order, c, s.buckets[c], m.vvNew) {
          StillCovered(m.h, m.nKey, t, order, c, s.buckets[c], before, m.vvNew);
        }
      }
    }
    if restoring { AllCovered(m.h, m.nKey, t, order, s.buckets, Mine(m.T(), o).info, m.vvNew); }
  }

  lemma StillCovered(h: Hashes, key: Key, t: Tables, order: seq<int>, b: nat, list: seq<int>, news: Table, news': Table)
    requires Covered(h, key, t, order, b, list, news) && news.Keys <= news'.Keys
    ensures Covered(h, key, t, order, b, list, news')
  {
  }

  lemma AllCovered(h: Hashes, key: Key, t: Tables, order: seq<int>, buckets: seq<seq<int>>, info: Infos, news: Table)
    requires Restoring(h, key, t, info, news, order)
    requires |buckets| == NEW_BUCKET_COUNT && RecordsBuckets(h, key, t, order, buckets, NEW_BUCKET_COUNT)
    requires forall c :: 0 <= c < NEW_BUCKET_COUNT ==> Covered(h, key, t, order, c, buckets[c], news)
    ensures t.news.Keys <= news.Keys
  {
    forall s | s in t.news ensures s in news {
      assert NewSlotOk(h, key, t.info, t.news, s);
      var list := buckets[s.bucket];
      assert Lists(order, list, t.news[s]) && Covered(h, key, t, order, s.bucket, list, news);
      var i :| 0 <= i < |list| && 0 <= list[i] < |order| && order[list[i]] == t.news[s];
      assert Placed(h, key, t, order, s.bucket, list[i]);
    }
  }

  ghost predicate AllReferenced(info: Infos) {
    forall n :: n in info && !info[n].inTried ==> info[n].refCount != 0
  }

  /** The last loop of `Unserialize`: drop new entries that got no reference. */
  method Prune(m: Manager, ghost o: Old)
    requires MineOk(m.h, m.nKey, m.T(), o) && TimesOk(Mine(m.T(), o).info)
    modifies m`mapInfo, m`vRandom, m`mapAddr, m`nNew
    ensures MineOk(m.h, m.nKey, m.T(), o) && TimesOk(Mine(m.T(), o).info) && AllReferenced(m.mapInfo)
    ensures AllReferenced(old(m.mapInfo)) ==> m.T() == old(m.T())
  {
    hide MineOk, Mine, TimesOk;
    var ids := m.mapInfo.Keys;
    while ids != {}
      invariant MineOk(m.h, m.nKey, m.T(), o) && TimesOk(Mine(m.T(), o).info) && ids <= m.mapInfo.Keys
      invariant forall n :: n in m.mapInfo && n !in ids && !m.mapInfo[n].inTried ==> m.mapInfo[n].refCount != 0
      invariant AllReferenced(old(m.mapInfo)) ==> m.T() == old(m.T())
      decreases ids
    {
      Inhabited(ids);
      var n :| n in ids;
      ids := ids - {n};
      if !m.mapInfo[n].inTried && m.mapInfo[n].refCount == 0 {
        ghost var info := m.mapInfo;
        PrunedKeeps(m.h, m.nKey, m.T(), o, n, ids);
        m.Delete(n);
      }
    }
  }

  lemma PrunedKeeps(h: Hashes, key: Key, t: Tables, o: Old, n: int, ids: set<int>)
    requires MineOk(h, key, t, o) && TimesOk(Mine(t, o).info)
    requires n in t.info && !t.info[n].inTried && t.info[n].refCount == 0
    requires ids <= t.info.Keys && n !in ids
    requires forall k :: k in t.info && k != n && k !in ids && !t.info[k].inTried ==> t.info[k].refCount != 0
    ensures Deletable(t, n) && MineOk(h, key, Deleted(t, n), o) && TimesOk(Mine(Deleted(t, n), o).info)
    ensures ids <= Deleted(t, n).info.Keys
    ensures var info := Deleted(t, n).info;
            forall k :: k in info && k !in ids && !info[k].inTried ==> info[k].refCount != 0
  {
    hide Agree, OwnInfo, Stays, Deleted, Deletable;
    assert n !in o.stale by { if n in o.stale { OldIsKept(t.info, o.stale, o.b, o.c, n); } }
    OwnDeleted(h, key, t, o.stale, o.b, o.c, o.ips, n);
    OwnEntry(t.info, o.stale, o.b, o.c, n);
    DeletedKeepsAgree(h, key, Mine(t, o), {}, n);
    DeletedFrame(t, n);
    DeletedFrame(Mine(t, o), n);
    forall k | k in ids ensures k in Deleted(t, n).info.Keys {}
  }

  lemma DeletedFrame(t: Tables, n: int)
    requires Deletable(t, n)
    ensures KeptExcept(t.info, Deleted(t, n).info, {n}) && n !in Deleted(t, n).info
  {
  }

  // ----- the round trip

  ghost predicate SameLayout(a: Table, b: Table, order: seq<int>) {
    a.Keys == b.Keys && PartOf(a, b, order)
  }

  /** `t'` is `t` with the entry `order[j]` under the id `j`: the same addresses and statistics (except the
      time of the last try), the same counters, and the same entry in every slot of both tables. */
  ghost predicate Renamed(t: Tables, t': Tables, order: seq<int>) {
    && Enumerates(order, t.info.Keys)
    && (forall j :: j in t'.info <==> 0 <= j < |order|)
    && (forall j :: 0 <= j < |order| ==> t'.info[j] == t.info[order[j]].(lastTry := 0, randomPos := j))
    && t'.nNew == t.nNew && t'.nTried == t.nTried
    && SameLayout(t.news, t'.news, order) && SameLayout(t.tried, t'.tried, order)
  }

  lemma OrderOfAll(info: Infos, news: seq<int>, tried: seq<int>)
    requires Enumerates(news, NewIds(info)) && Enumerates(tried, TriedIds(info))
    ensures Enumerates(news + tried, info.Keys)
  {
    var order := news + tried;
    forall n | n in info.Keys ensures n in order {
      assert n in NewIds(info) || n in TriedIds(info);
    }
    forall i | 0 <= i < |order| ensures order[i] in info.Keys {}
  }

  /** A file that was written can be read. */
  lemma FilesAreConsistent(h: Hashes, t: Tables, s: Stored, news: seq<int>, tried: seq<int>)
    requires Records(h, s.key, t, s, news, tried) && Sane(h, s.key, t)
    ensures Complete(s) && Consistent(s) && Usable(s) && NoClash(h, s)
  {
    hide Agree, AddrOk, TriedOk, Enumerates, RecordsEntries, RecordsBuckets, NewIds, TriedIds, TimesOk, RefsBounded;
    OrderOfAll(t.info, news, tried);
    AllRecords(t.info, news, tried, s);
    AgreeParts(h, s.key, t);
    AddressesDiffer(t.info, t.addr, news + tried, s.news + s.tried);
    TimesWritten(t.info, news + tried, s.news + s.tried);
    TriedWritten(h, t, s, tried);
    assert forall i :: 0 <= i < |s.news| ==> (s.news + s.tried)[i] == s.news[i];
  }

  lemma AllRecords(info: Infos, news: seq<int>, tried: seq<int>, s: Stored)
    requires RecordsEntries(info, news, s.news) && RecordsEntries(info, tried, s.tried)
    ensures RecordsEntries(info, news + tried, s.news + s.tried) && |s.news| == |news| && |s.tried| == |tried|
  {
  }

  lemma AgreeParts(h: Hashes, key: Key, t: Tables)
    requires Agree(h, key, t, {})
    ensures AddrOk(t.info, t.addr) && TriedOk(h, key, t.info, t.tried) && NewOk(h, key, t.info, t.news)
  {
  }

  lemma AddressesDiffer(info: Infos, addr: map<NetAddr, int>, order: seq<int>, all: seq<Record>)
    requires RecordsEntries(info, order, all) && Enumerates(order, info.Keys) && AddrOk(info, addr)
    ensures forall i, j :: 0 <= i < j < |all| ==> all[i].addr.ip != all[j].addr.ip
  {
    forall i, j | 0 <= i < j < |all| ensures all[i].addr.ip != all[j].addr.ip {
      assert order[i] != order[j];
    }
  }

  lemma TimesWritten(info: Infos, order: seq<int>, all: seq<Record>)
    requires RecordsEntries(info, order, all) && TimesOk(info)
    ensures forall i :: 0 <= i < |all| ==> all[i].lastSuccess >= 0
  {
    forall i | 0 <= i < |all| ensures all[i].lastSuccess >= 0 {
      var n := order[i];
      assert n in info && info[n].lastSuccess >= 0 && all[i] == RecordOf(info[n]);
    }
  }

  lemma TriedWritten(h: Hashes, t: Tables, s: Stored, tried: seq<int>)
    requires RecordsEntries(t.info, tried, s.tried) && Enumerates(tried, TriedIds(t.info))
    requires TriedOk(h, s.key, t.info, t.tried) && TimesOk(t.info)
    ensures NoClash(h, s) && forall i :: 0 <= i < |s.tried| ==> s.tried[i].lastSuccess > 0
  {
    hide TriedSlot;
    forall i, j | 0 <= i < j < |s.tried|
      ensures TriedSlot(h, s.key, s.tried[i].addr) != TriedSlot(h, s.key, s.tried[j].addr)
    {
      assert tried[i] != tried[j];
      TriedIsTried(t.info, tried[i]);
      TriedIsTried(t.info, tried[j]);
    }
    forall i | 0 <= i < |s.tried| ensures s.tried[i].lastSuccess > 0 {
      TriedIsTried(t.info, tried[i]);
    }
  }

  lemma TriedIsTried(info: Infos, n: int)
    requires n in TriedIds(info)
    ensures n in info && info[n].inTried
  {
  }

  /** What has been read stands for what was written. */
  lemma ReadStandsFor(h: Hashes, t: Tables, s: Stored, news: seq<int>, tried: seq<int>, info: Infos, from: seq<nat>)
    requires Records(h, s.key, t, s, news, tried) && Read(info, s, |s.news|, from) && Agree(h, s.key, t, {}) && RefsBounded(t.info, {})
    ensures Restoring(h, s.key, t, info, map[], news)
  {
    hide RefsBounded;
  }

  lemma ReadTimes(s: Stored, info: Infos, info': Infos, from: seq<nat>)
    requires Consistent(s) && Read(info, s, |s.news|, from) && SameButRefs(info, info')
    ensures TimesOk(info')
  {
    forall j | j in info' ensures info'[j].lastTry >= 0 && info'[j].lastSuccess >= 0 && (info'[j].inTried ==> info'[j].lastSuccess != 0) {
      if j >= |s.news| { assert info[|s.news| + (j - |s.news|)] == Loaded(s.tried[from[j - |s.news|]], j, true); }
    }
  }

  /** All references are back. */
  lemma ReferencesRestored(h: Hashes, key: Key, t: Tables, info: Infos, news: Table, order: seq<int>, j: int)
    requires Restoring(h, key, t, info, news, order) && t.news.Keys <= news.Keys && Distinct(order) && NewOk(h, key, info, news)
    requires 0 <= j < |order|
    ensures info[j].refCount == t.info[order[j]].refCount
  {
    assert Refs(news, j) == Refs(t.news, order[j]);
  }

  /** Entries that are tried under the one id and the other have the same place. */
  lemma TriedLayout(h: Hashes, key: Key, t: Tables, t': Tables, order: seq<int>)
    requires Enumerates(order, t.info.Keys) && forall j :: j in t'.info <==> 0 <= j < |order|
    requires forall j :: 0 <= j < |order| ==> order[j] in t.info && t'.info[j].addr == t.info[order[j]].addr
    requires forall j :: 0 <= j < |order| ==> order[j] in t.info && (t'.info[j].inTried <==> t.info[order[j]].inTried)
    requires TriedOk(h, key, t.info, t.tried) && TriedOk(h, key, t'.info, t'.tried)
    ensures SameLayout(t.tried, t'.tried, order)
  {
    hide TriedSlot;
    forall slot | slot in t.tried ensures slot in t'.tried {
      var n := t.tried[slot];
      assert n in t.info.Keys;
      var j :| 0 <= j < |order| && order[j] == n;
      assert TriedSlot(h, key, t'.info[j].addr) in t'.tried;
    }
    forall slot | slot in t'.tried ensures slot in t.tried && 0 <= t'.tried[slot] < |order| && order[t'.tried[slot]] == t.tried[slot] {
      var j := t'.tried[slot];
      assert j in t'.info && t'.info[j].inTried && slot == TriedSlot(h, key, t'.info[j].addr);
      var n := order[j];
      assert n in t.info && t.info[n].inTried && t.info[n].addr == t'.info[j].addr;
      assert TriedSlot(h, key, t.info[n].addr) in t.tried;
    }
  }

  /** The entries of both tables under their new ids. */
  lemma EntriesRestored(h: Hashes, t: Tables, t': Tables, s: Stored, news: seq<int>, tried: seq<int>, info: Infos, from: seq<nat>)
    requires Records(h, s.key, t, s, news, tried) && Sane(h, s.key, t) && NewOk(h, s.key, t'.info, t'.news)
    requires Read(info, s, |s.news|, from) && |from| == |s.tried| && Identity(from) && SameButRefs(info, t'.info)
    requires Restoring(h, s.key, t, t'.info, t'.news, news) && t.news.Keys <= t'.news.Keys
    ensures forall j :: j in t'.info <==> 0 <= j < |news + tried|
    ensures forall j :: 0 <= j < |news + tried| ==>
              (news + tried)[j] in t.info && t'.info[j] == t.info[(news + tried)[j]].(lastTry := 0, randomPos := j)
    ensures AllReferenced(t'.info)
  {
    hide Agree, NewOk, TriedOk, AddrOk, RecordsBuckets, Restoring;
    forall j | 0 <= j < |news|
      ensures j in t'.info && news[j] in t.info && t'.info[j] == t.info[news[j]].(lastTry := 0, randomPos := j) && t'.info[j].refCount != 0
    {
      ReferencesRestored(h, s.key, t, t'.info, t'.news, news, j);
      assert news[j] in NewIds(t.info);
      NewIsReferenced(t.info, news[j]);
      assert t'.info[j] == Loaded(s.news[j], j, false).(refCount := t'.info[j].refCount);
    }
    forall j | 0 <= j < |tried|
      ensures |news| + j in t'.info && tried[j] in t.info && t'.info[|news| + j] == t.info[tried[j]].(lastTry := 0, randomPos := |news| + j)
    {
      TriedIsTried(t.info, tried[j]);
      assert from[j] == j && info[|news| + j] == Loaded(s.tried[j], |news| + j, true);
      TriedRestored(h, s.key, t, t'.info, t'.news, news, tried[j], |news| + j);
    }
    var order := news + tried;
    forall j | 0 <= j < |order| ensures order[j] in t.info && t'.info[j] == t.info[order[j]].(lastTry := 0, randomPos := j) {
      if j >= |news| { assert order[j] == tried[j - |news|] && |news| + (j - |news|) == j; }
    }
  }

  lemma NewIsReferenced(info: Infos, n: int)
    requires n in NewIds(info) && RefsBounded(info, {})
    ensures n in info && !info[n].inTried && info[n].refCount != 0
  {
  }

  /** No slot refers to an entry that is tried. */
  lemma TriedRestored(h: Hashes, key: Key, t: Tables, info: Infos, news: Table, order: seq<int>, n: int, j: int)
    requires Restoring(h, key, t, info, news, order) && NewOk(h, key, info, news)
    requires n in t.info && t.info[n].inTried && j in info && info[j].inTried
    ensures t.info[n].refCount == 0 && info[j].refCount == 0
  {
    assert forall s :: s in t.news ==> NewSlotOk(h, key, t.info, t.news, s);
    assert forall s :: s in news ==> NewSlotOk(h, key, info, news, s);
    assert Refs(t.news, n) == {} && Refs(news, j) == {};
  }

  /** The limits that are checked on loading are never exceeded by what was saved. */
  lemma {:induction false} TableBound(table: Table, buckets: nat)
    requires forall s :: s in table ==> s.bucket < buckets && s.pos < BUCKET_SIZE
    ensures |table| <= buckets * BUCKET_SIZE
    decreases buckets
  {
    if buckets == 0 {
      assert table.Keys == {};
    } else {
      var last := set s | s in table && s.bucket == buckets - 1;
      var rest := table - last;
      TableBound(rest, buckets - 1);
      BucketBound(last, buckets - 1, BUCKET_SIZE);
      assert table.Keys == rest.Keys + last;
    }
  }

  lemma {:induction false} BucketBound(slots: set<Slot>, b: nat, size: nat)
    requires forall s :: s in slots ==> s.bucket == b && s.pos < size
    ensures |slots| <= size
    decreases size
  {
    if size == 0 {
      assert slots == {};
    } else {
      BucketBound(slots - {Slot(b, size - 1)}, b, size - 1);
      assert slots <= (slots - {Slot(b, size - 1)}) + {Slot(b, size - 1)};
      SlotsCount(slots, (slots - {Slot(b, size - 1)}) + {Slot(b, size - 1)});
    }
  }

  ghost predicate InTable(table: Table, n: int) {
    exists slot :: slot in table && table[slot] == n
  }

  /** A list of ids each of which is somewhere in the table is no longer than the table. */
  lemma {:induction false} IdsFit(order: seq<int>, table: Table)
    requires Distinct(order) && forall i :: 0 <= i < |order| ==> InTable(table, order[i])
    ensures |order| <= |table|
    decreases |order|
  {
    if order != [] {
      var init, last := order[..|order| - 1], order[|order| - 1];
      assert order[|order| - 1] == last;
      var slot :| slot in table && table[slot] == last;
      var rest := table - {slot};
      forall i | 0 <= i < |init| ensures InTable(rest, init[i]) {
        assert init[i] == order[i];
        var s :| s in table && table[s] == order[i];
        assert s in rest && rest[s] == init[i];
      }
      IdsFit(init, rest);
      assert table.Keys == rest.Keys + {slot};
    }
  }

  lemma FilesAreSmall(h: Hashes, t: Tables, s: Stored, news: seq<int>, tried: seq<int>)
    requires Records(h, s.key, t, s, news, tried) && Sane(h, s.key, t)
    ensures s.nNew <= NEW_BUCKET_COUNT * BUCKET_SIZE && s.nTried <= TRIED_BUCKET_COUNT * BUCKET_SIZE
  {
    hide Agree, TimesOk, AddrOk, RecordsBuckets, RecordsEntries;
    AgreeParts(h, s.key, t);
    forall i | 0 <= i < |news| ensures InTable(t.news, news[i]) {
      NewIsReferenced(t.info, news[i]);
      assert Refs(t.news, news[i]) != {};
      var slot :| slot in Refs(t.news, news[i]);
      assert slot in t.news && t.news[slot] == news[i];
    }
    IdsFit(news, t.news);
    forall slot | slot in t.news ensures slot.bucket < NEW_BUCKET_COUNT && slot.pos < BUCKET_SIZE {
      assert NewSlotOk(h, s.key, t.info, t.news, slot);
    }
    TableBound(t.news, NEW_BUCKET_COUNT);
    forall i | 0 <= i < |tried| ensures InTable(t.tried, tried[i]) {
      TriedIsTried(t.info, tried[i]);
      assert TriedSlot(h, s.key, t.info[tried[i]].addr) in t.tried;
    }
    IdsFit(tried, t.tried);
    TableBound(t.tried, TRIED_BUCKET_COUNT);
  }

  /** How far the file reads over the entries `stale` and the addresses `was`. */
  ghost function OldAfter(h: Hashes, s: Stored, stale: Infos, was: set<NetAddr>): Old {
    var from := Kept(h, s, |s.tried|);
    Old(stale, |s.news|, |s.news| + |from|, LeftIps(was, s, |s.news|, from))
  }

  /** The two loops of `Unserialize` that read entries. */
  method ReadEntries(m: Manager, s: Stored, ghost stale: Infos, ghost was: set<NetAddr>)
    requires Complete(s) && Consistent(s) && m.nKey == s.key && m.nNew == s.nNew && m.nTried == s.nTried && Leftover(stale)
    requires m.mapInfo == stale && m.mapAddr.Keys == was && m.vRandom == [] && m.vvNew == map[] && m.vvTried == map[]
    modifies m`mapInfo, m`mapAddr, m`vRandom, m`vvNew, m`vvTried, m`nIdCount, m`nTried
    ensures var o := OldAfter(m.h, s, stale, was);
            && MineOk(m.h, m.nKey, m.T(), o) && FirstAreNew(Mine(m.T(), o).info, m.nNew) && m.nNew == o.b
            && Read(Mine(m.T(), o).info, s, |s.news|, Kept(m.h, s, |s.tried|))
    ensures m.nIdCount == |s.news| + |Kept(m.h, s, |s.tried|)| && m.nTried == |Kept(m.h, s, |s.tried|)|
    ensures Usable(s) ==> m.vvNew == map[]
  {
    hide Agree, Consistent, OwnInfo, Stays, LeftIps, RefsAtMost, Kept;
    ReadNew(m, s, stale, was);
    m.nIdCount := m.nNew;
    var nLost := ReadTried(m, s, stale, was);
    m.nTried := m.nTried - nLost;
    ghost var o := OldAfter(m.h, s, stale, was);
    assert Mine(m.T(), o) == Part(m.T(), stale, o.b, o.c, o.ips, |s.news|, |s.tried| - nLost);
  }

  lemma RestoringStarts(h: Hashes, t: Tables, s: Stored, news: seq<int>, tried: seq<int>, info: Infos, from: seq<nat>)
    requires Records(h, s.key, t, s, news, tried) && Sane(h, s.key, t) && Read(info, s, |s.news|, from)
    ensures Usable(s) && NoClash(h, s) && |news| == |s.news| && Restoring(h, s.key, t, info, map[], news)
    ensures |s.buckets| == NEW_BUCKET_COUNT && RecordsBuckets(h, s.key, t, news, s.buckets, NEW_BUCKET_COUNT)
  {
    hide Agree, Restoring, RefsBounded, TimesOk;
    FilesAreConsistent(h, t, s, news, tried);
    ReadStandsFor(h, t, s, news, tried, info, from);
  }

  lemma IsRenamed(h: Hashes, t: Tables, t': Tables, s: Stored, news: seq<int>, tried: seq<int>, info: Infos, from: seq<nat>)
    requires Records(h, s.key, t, s, news, tried) && Sane(h, s.key, t) && Agree(h, s.key, t', {})
    requires Read(info, s, |s.news|, from) && |from| == |s.tried| && Identity(from) && SameButRefs(info, t'.info)
    requires Restoring(h, s.key, t, t'.info, t'.news, news) && t.news.Keys <= t'.news.Keys
    requires t'.nNew == |s.news| && t'.nTried == |from|
    ensures Renamed(t, t', news + tried) && AllReferenced(t'.info)
  {
    hide Agree, NewOk, TriedOk, AddrOk, RefsBounded, TimesOk, RecordsBuckets, AllReferenced, Read, SameButRefs, Enumerates,
      SameLayout, Restoring, Identity;
    AgreeParts(h, s.key, t);
    AgreeParts(h, s.key, t');
    NewLayout(h, s.key, t, t', news, tried);
    OrderOfAll(t.info, news, tried);
    EntriesRestored(h, t, t', s, news, tried, info, from);
    TriedLayout(h, s.key, t, t', news + tried);
    EnumerationCounts(news, NewIds(t.info));
    EnumerationCounts(tried, TriedIds(t.info));
    AgreeCounts(h, s.key, t);
  }

  lemma NewLayout(h: Hashes, key: Key, t: Tables, t': Tables, news: seq<int>, tried: seq<int>)
    requires Restoring(h, key, t, t'.info, t'.news, news) && t.news.Keys <= t'.news.Keys
    ensures SameLayout(t.news, t'.news, news + tried)
  {
  }

  lemma AgreeCounts(h: Hashes, key: Key, t: Tables)
    requires Agree(h, key, t, {})
    ensures t.nNew == |NewIds(t.info)| && t.nTried == |TriedIds(t.info)|
  {
    assert NewIds(t.info) - {} == NewIds(t.info);
  }

  /** Every entry and every address from before is replaced by one of the file: none is under an id that a new
      entry gets or that no entry gets, and none has an address that is not read. */
  ghost predicate Replaced(h: Hashes, s: Stored, stale: Infos, was: set<NetAddr>) {
    var o := OldAfter(h, s, stale, was);
    Gone(stale, o.b, o.c, o.ips)
  }

  /** The same for the entries alone. */
  ghost predicate IdsReplaced(h: Hashes, s: Stored, stale: Infos) {
    forall n :: n in stale ==> |s.news| <= n < |s.news| + |Kept(h, s, |s.tried|)|
  }

  /** In particular when there are none. */
  lemma NothingToReplace(h: Hashes, s: Stored)
    ensures Replaced(h, s, map[], {})
  {
    assert LeftIps({}, s, |s.news|, Kept(h, s, |s.tried|)) == {};
  }

  lemma WholeIffReplaced(h: Hashes, key: Key, t: Tables, o: Old)
    requires MineOk(h, key, t, o) && TimesOk(Mine(t, o).info) && AllReferenced(t.info)
    ensures Sane(h, key, t) <==> Gone(o.stale, o.b, o.c, o.ips)
    ensures Gone(o.stale, o.b, o.c, o.ips) ==> Mine(t, o) == t
    ensures Passes(h, key, t) <==> forall n :: n in o.stale ==> o.b <= n < o.c
  {
    hide Agree, OwnInfo, Stays, TimesOk, Passes;
    PassesIffReplaced(h, key, t, o.stale, o.b, o.c, o.ips);
    LoadedIffGone(h, key, t, o.stale, o.b, o.c, o.ips);
    if Gone(o.stale, o.b, o.c, o.ips) { NothingTaken(t, o.stale, o.b, o.c, o.ips); }
  }

  /**
   `Unserialize`: `Clear`, then everything from the file.  Whatever the bucket lists say, the loaded manager is
   consistent exactly when the file replaces everything that was there before; and then loading a file of the
   tables `t` brings back `t` under new ids.
   */
  method Unserialize(m: Manager, s: Stored, key: Key, ghost t: Tables, ghost news: seq<int>, ghost tried: seq<int>) returns (ok: bool)
    requires Complete(s) && Consistent(s) && Leftover(m.mapInfo)
    modifies m
    ensures ok <==> s.keySize == 32 && s.nNew <= NEW_BUCKET_COUNT * BUCKET_SIZE && s.nTried <= TRIED_BUCKET_COUNT * BUCKET_SIZE
    ensures !ok ==> m.mapInfo == old(m.mapInfo) && m.mapAddr == old(m.mapAddr) && m.vRandom == []
    ensures ok ==> m.nKey == s.key && (m.Valid() <==> Replaced(m.h, s, old(m.mapInfo), old(m.mapAddr).Keys))
    ensures ok ==> (Passes(m.h, m.nKey, m.T()) <==> IdsReplaced(m.h, s, old(m.mapInfo))) && Shaped(m.vvNew)
    ensures ok && Records(m.h, s.key, t, s, news, tried) && Sane(m.h, s.key, t) && Replaced(m.h, s, old(m.mapInfo), old(m.mapAddr).Keys)
            ==> Renamed(t, m.T(), news + tried)
  {
    hide Agree, Consistent, MineOk, Mine, Restoring, NoClash, Records, Sane, Renamed, TimesOk, AllReferenced, Complete, RefsBounded,
      Gone, Passes, Read, FirstAreNew;
    ghost var stale, was := m.mapInfo, m.mapAddr.Keys;
    m.Clear(key);
    if s.keySize != 32 {
      return false;
    }
    m.nKey, m.nNew, m.nTried := s.key, s.nNew, s.nTried;
    if m.nNew > NEW_BUCKET_COUNT * BUCKET_SIZE || m.nTried > TRIED_BUCKET_COUNT * BUCKET_SIZE {
      return false;
    }
    ghost var o := OldAfter(m.h, s, stale, was);
    ghost var restoring := Records(m.h, s.key, t, s, news, tried) && Sane(m.h, s.key, t) && Gone(stale, o.b, o.c, o.ips);
    ReadEntries(m, s, stale, was);
    ghost var info, from := Mine(m.T(), o).info, Kept(m.h, s, |s.tried|);
    if restoring {
      RestoringStarts(m.h, t, s, news, tried, info, from);
      KeptAll(m.h, s, |s.tried|);
      GoneNoneBelow(o);
    }
    ReadBuckets(m, s, o, restoring, t, news);
    ReadTimes(s, info, Mine(m.T(), o).info, from);
    if restoring {
      MineAgrees(m.h, m.nKey, m.T(), o);
      IsRenamed(m.h, t, Mine(m.T(), o), s, news, tried, info, from);
      MineIsAll(m.T(), o);
    }
    Prune(m, o);
    WholeIffReplaced(m.h, m.nKey, m.T(), o);
    assert m.Valid() <==> Sane(m.h, m.nKey, m.T()) by { SaneIsValid(m); }
    MineAgrees(m.h, m.nKey, m.T(), o);
    IsShaped(m.h, m.nKey, Mine(m.T(), o));
    return true;
  }

  lemma SaneIsValid(m: Manager)
    ensures m.Valid() <==> Sane(m.h, m.nKey, m.T())
  {
  }

  lemma GoneNoneBelow(o: Old)
    requires Gone(o.stale, o.b, o.c, o.ips)
    ensures NoneBelow(o)
  {
  }

  lemma MineIsAll(t: Tables, o: Old)
    requires Gone(o.stale, o.b, o.c, o.ips)
    ensures Mine(t, o) == t
  {
    NothingTaken(t, o.stale, o.b, o.c, o.ips);
  }

  lemma MineAgrees(h: Hashes, key: Key, t: Tables, o: Old)
    requires MineOk(h, key, t, o)
    ensures Agree(h, key, Mine(t, o), {}) && Mine(t, o).nNew == t.nNew && Mine(t, o).nTried == t.nTried && Mine(t, o).news == t.news
  {
  }

  /** Saving and loading into a new manager loses no address and restores both tables. */
  method SaveAndLoad(m: Manager, key: Key) returns (loaded: Manager, ghost order: seq<int>)
    requires m.Valid()
    ensures fresh(loaded) && loaded.Valid() && loaded.nKey == m.nKey && Renamed(m.T(), loaded.T(), order)
  {
    hide Agree, Records, Renamed, Complete, Consistent, RefsBounded, TimesOk;
    var s;
    ghost var news, tried;
    s, news, tried := Serialize(m);
    loaded := new Manager(m.h, key);
    KeyIsWritten(m.h, m.nKey, m.T(), s, news, tried);
    FilesAreConsistent(m.h, m.T(), s, news, tried);
    FilesAreSmall(m.h, m.T(), s, news, tried);
    NothingToReplace(m.h, s);
    var ok := Unserialize(loaded, s, key, m.T(), news, tried);
    order := news + tried;
  }

  /** Loading a file back into the manager it was saved from: with nothing but new entries, the loaded manager
      fails its own check. */
  method LoadedOverItself(h: Hashes, key: Key, addr: Service, now: nat) returns (ok: bool, err: int)
    ensures ok && err != 0
  {
    hide Agree, Records, Renamed, Complete, Consistent, RefsBounded, TimesOk, Passes, RoomForNew, Replaced, Shaped, Leftover;
    var m := new Manager(h, key);
    ghost var v;
    var added;
    added, v := m.Add(addr, {}, now, 0, 0, now, true);
    var s;
    ghost var news, tried;
    s, news, tried := Serialize(m);
    KeyIsWritten(m.h, m.nKey, m.T(), s, news, tried);
    FilesAreConsistent(m.h, m.T(), s, news, tried);
    FilesAreSmall(m.h, m.T(), s, news, tried);
    ghost var t := m.T();
    FirstIsNew(h, key, t, s, news, tried, AddCall(addr, {}, now, 0, 0, now, true));
    SaneIsLeftover(h, key, t);
    ok := Unserialize(m, s, key, t, news, tried);
    err := m.Check();
  }

  /** Every manager between calls holds entries as they are left over. */
  lemma SaneIsLeftover(h: Hashes, key: Key, t: Tables)
    requires Sane(h, key, t)
    ensures Leftover(t.info)
  {
  }

  lemma FirstIsNew(h: Hashes, key: Key, t: Tables, s: Stored, news: seq<int>, tried: seq<int>, c: Call)
    requires Sane(h, key, t) && Records(h, key, t, s, news, tried) && c.AddCall? && c.routable
    requires AddStep(h, key, Tables(0, map[], map[], [], 0, map[], 0, map[]), c, t, true)
    ensures !IdsReplaced(h, s, t.info)
  {
    var n := t.addr[c.addr.ip];
    assert n in t.info && !t.info[n].inTried;
    assert RoomForNew(map[], map[], NewSlot(h, key, c.addr, h.newBucket(key, c.addr, c.source)), c.now);
    forall m | m in t.info ensures m == n {
      assert t.info[m].addr == c.addr && t.addr[t.info[m].addr.ip] == m;
    }
    SameIds(TriedIds(t.info), {});
    EnumerationCounts(tried, TriedIds(t.info));
  }

  lemma KeyIsWritten(h: Hashes, key: Key, t: Tables, s: Stored, news: seq<int>, tried: seq<int>)
    requires Records(h, key, t, s, news, tried)
    ensures s.key == key && s.keySize == 32
  {
  }
}
