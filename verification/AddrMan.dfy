/**
 The stochastic address manager: class `CAddrMan` (src/addrman.h, src/addrman.cpp).  Random choices are
 arbitrary, so what is proved holds for every outcome; the clock is a parameter.
 */
module AddrMan {
  import opened AddrTables
  import opened AddrCheck

  class Manager {
    const h: Hashes
    var nKey: Key
    var nIdCount: int
    var mapInfo: Infos
    var mapAddr: map<NetAddr, int>
    var vRandom: seq<int>
    var nTried: int
    var vvTried: Table
    var nNew: int
    var vvNew: Table

    function T(): Tables
      reads this
    {
      Tables(nIdCount, mapInfo, mapAddr, vRandom, nTried, vvTried, nNew, vvNew)
    }

    /** The indexes agree, and entries in `limbo` have no references. */
    ghost predicate Indexed(limbo: set<int>)
      reads this
    {
      Agree(h, nKey, T(), limbo) && forall n :: n in limbo ==> n in mapInfo && mapInfo[n].refCount == 0
    }

    /** Everything Check_ tests, between any two calls. */
    ghost predicate Valid()
      reads this
    {
      Indexed({}) && RefsBounded(mapInfo, {}) && TimesOk(mapInfo)
    }

    constructor (h: Hashes, nKey: Key)
      ensures Valid() && T() == Tables(0, map[], map[], [], 0, map[], 0, map[]) && this.h == h && this.nKey == nKey
    {
      this.h, this.nKey := h, nKey;
      nIdCount, mapInfo, mapAddr, vRandom := 0, map[], map[], [];
      nTried, vvTried, nNew, vvNew := 0, map[], 0, map[];
    }

    /**
     `Clear`, with the fresh random key it draws.  It empties vRandom and both tables, but neither mapInfo nor
     mapAddr: what is left is consistent, and passes the check, exactly when there was nothing to clear.
     */
    method Clear(key: Key)
      modifies this
      ensures nKey == key && T() == Tables(0, old(mapInfo), old(mapAddr), [], 0, map[], 0, map[])
      ensures Valid() <==> old(mapInfo) == map[] && old(mapAddr) == map[]
      ensures Passes(h, nKey, T()) <==> old(mapInfo) == map[]
    {
      hide RefsBounded, TimesOk, TriedOk, NewOk;
      vRandom := [];
      nKey := key;
      vvNew, vvTried := map[], map[];
      nIdCount, nTried, nNew := 0, 0, 0;
      ClearedPasses(h, nKey, T());
    }

    /** `Find`. */
    method Find(addr: NetAddr) returns (found: bool, n: int)
      requires Indexed({})
      ensures found <==> addr in mapAddr
      ensures found ==> n in mapInfo && n == mapAddr[addr] && mapInfo[n].addr.ip == addr
    {
      if addr !in mapAddr {
        return false, -1;
      }
      n := mapAddr[addr];
      found := n in mapInfo;
    }

    /** New statistics for an entry. */
    method SetStatistics(n: int, i: Info, ghost limbo: set<int>)
      requires Indexed(limbo) && n in mapInfo && SameSlots(mapInfo[n], i) && i.randomPos == mapInfo[n].randomPos
      modifies this`mapInfo
      ensures Indexed(limbo) && T() == WithInfo(old(T()), n, i)
    {
      hide Agree;
      StatisticsKeepAgree(h, nKey, T(), limbo, n, i);
      mapInfo := mapInfo[n := i];
    }

    /** `Create`, with the increment of nNew that follows it in Add_. */
    method Create(addr: Service, services: set<nat>, time: nat, source: NetAddr) returns (n: int)
      requires Indexed({}) && addr.ip !in mapAddr
      modifies this`nIdCount, this`mapInfo, this`mapAddr, this`vRandom, this`nNew
      ensures Indexed({}) && n !in old(mapInfo) && vvNew == old(vvNew)
      ensures T() == Created(old(T()), Info(addr, services, time, source, 0, 0, 0, 0, false, |old(vRandom)|)) && n == old(nIdCount)
    {
      hide Agree;
      n := nIdCount;
      var i := Info(addr, services, time, source, 0, 0, 0, 0, false, |vRandom|);
      CreateKeepsAgree(h, nKey, T(), i);
      nIdCount := nIdCount + 1;
      mapInfo := mapInfo[n := i];
      mapAddr := mapAddr[addr.ip := n];
      vRandom := vRandom + [n];
      nNew := nNew + 1;
    }

    /** `SwapRandom`: what the source asserts of the two positions is all it needs. */
    method SwapRandom(i: nat, j: nat)
      requires i < |vRandom| && j < |vRandom| && vRandom[i] in mapInfo && vRandom[j] in mapInfo
      modifies this`mapInfo, this`vRandom
      ensures T() == Swapped(old(T()), i, j)
    {
      if i == j {
        return;
      }
      var n1, n2 := vRandom[i], vRandom[j];
      mapInfo := mapInfo[n1 := mapInfo[n1].(randomPos := j)];
      mapInfo := mapInfo[n2 := mapInfo[n2].(randomPos := i)];
      vRandom := vRandom[i := n2][j := n1];
    }

    /** `Delete`: an entry without references, found at its place in vRandom, leaves every index. */
    method Delete(n: int)
      requires Deletable(T(), n)
      modifies this`mapInfo, this`vRandom, this`mapAddr, this`nNew
      ensures T() == Deleted(old(T()), n)
    {
      SwapRandom(mapInfo[n].randomPos, |vRandom| - 1);
      vRandom := vRandom[..|vRandom| - 1];
      mapAddr := mapAddr - {mapInfo[n].addr.ip};
      mapInfo := mapInfo - {n};
      nNew := nNew - 1;
    }

    /** `ClearNew`: if there is an entry in the slot it loses a reference, and with the last one it goes. */
    method ClearNew(s: Slot, ghost limbo: set<int>)
      requires Indexed(limbo)
      modifies this`mapInfo, this`vRandom, this`mapAddr, this`nNew, this`vvNew
      ensures Indexed(limbo) && vvNew == old(vvNew) - {s} && mapInfo.Keys <= old(mapInfo).Keys
      ensures s !in old(vvNew) ==> T() == old(T())
      ensures s in old(vvNew) ==> var v := old(vvNew)[s];
                && v in old(mapInfo) && v !in limbo && !old(mapInfo)[v].inTried && old(mapInfo)[v].refCount > 0
                && KeptExcept(old(mapInfo), mapInfo, {v})
                && (v in mapInfo <==> old(mapInfo)[v].refCount > 1)
                && (v in mapInfo ==> mapInfo[v] == old(mapInfo)[v].(refCount := old(mapInfo)[v].refCount - 1))
    {
      hide Agree;
      if s in vvNew {
        ClearSlotKeepsAgree(h, nKey, T(), limbo, s);
        var v := vvNew[s];
        mapInfo := mapInfo[v := mapInfo[v].(refCount := mapInfo[v].refCount - 1)];
        vvNew := vvNew - {s};
        assert T() == SlotCleared(old(T()), s);
        if mapInfo[v].refCount == 0 {
          ghost var info := mapInfo;
          DeletedKeepsAgree(h, nKey, T(), limbo, v);
          Delete(v);
          KeptTransitive(old(mapInfo), info, mapInfo, {v}, {v});
          assert {v} + {v} == {v};
        }
      }
    }

    /** The first loop of `MakeTried`: take the entry out of every new bucket. */
    method LeaveNew(n: int)
      requires Indexed({}) && n in mapInfo && !mapInfo[n].inTried
      modifies this`mapInfo, this`vvNew
      ensures Indexed({}) && mapInfo == old(mapInfo)[n := old(mapInfo)[n].(refCount := 0)]
      ensures forall s :: s in vvNew ==> s in old(vvNew) && vvNew[s] != n
    {
      hide Agree;
      ghost var info := mapInfo;
      for bucket := 0 to NEW_BUCKET_COUNT
        invariant Indexed({}) && n in mapInfo
        invariant mapInfo == info[n := info[n].(refCount := mapInfo[n].refCount)]
        invariant forall s :: s in vvNew ==> s in old(vvNew) && vvNew[s] == old(vvNew)[s]
        invariant forall s :: s in vvNew && vvNew[s] == n ==> s.bucket >= bucket
      {
        var s := NewSlot(h, nKey, mapInfo[n].addr, bucket);
        ghost var t := T();
        OneSlotPerBucket(h, nKey, T(), {}, n, bucket);
        if s in vvNew && vvNew[s] == n {
          ClearSlotKeepsAgree(h, nKey, T(), {}, s);
          vvNew := vvNew - {s};
          mapInfo := mapInfo[n := mapInfo[n].(refCount := mapInfo[n].refCount - 1)];
          assert T() == SlotCleared(t, s);
        }
      }
      Unreferenced(h, nKey, T(), {}, n);
    }

    method LeaveTried(ks: Slot, ghost limbo: set<int>) returns (id: int)
      requires Indexed(limbo) && ks in vvTried
      modifies this`mapInfo, this`nTried, this`vvTried
      ensures id == old(vvTried)[ks] && id in old(mapInfo) && id !in limbo && old(mapInfo)[id].inTried
      ensures Indexed(limbo + {id}) && mapInfo == old(mapInfo)[id := old(mapInfo)[id].(inTried := false)]
      ensures vvTried == old(vvTried) - {ks}
    {
      hide Agree;
      LeaveTriedKeepsAgree(h, nKey, T(), limbo, ks);
      id := vvTried[ks];
      mapInfo := mapInfo[id := mapInfo[id].(inTried := false)];
      vvTried := vvTried - {ks};
      nTried := nTried - 1;
      assert T() == LeftTried(old(T()), ks);
    }

    /** The middle of `MakeTried`: the tried entry in slot `ks` is moved to the new table, deleting
        whatever is in its place there.  The evicted address stays in the manager. */
    method EvictTried(ks: Slot, ghost n: int) returns (ghost e: int, ghost v: int)
      requires Indexed({n}) && ks in vvTried && RefsBounded(mapInfo, {n})
      modifies this`mapInfo, this`vRandom, this`mapAddr, this`nNew, this`vvNew, this`nTried, this`vvTried
      ensures Indexed({n}) && vvTried == old(vvTried) - {ks} && RefsBounded(mapInfo, {n})
      ensures e == old(vvTried)[ks] && e in old(mapInfo) && e != n && v != n && v != e
      ensures e in mapInfo && !mapInfo[e].inTried && mapInfo[e].refCount == 1 && mapInfo[e].addr == old(mapInfo)[e].addr
      ensures mapInfo[e].lastTry == old(mapInfo)[e].lastTry && mapInfo[e].lastSuccess == old(mapInfo)[e].lastSuccess
      ensures v in old(mapInfo) ==> !old(mapInfo)[v].inTried
      ensures v in mapInfo ==> v in old(mapInfo) && mapInfo[v] == old(mapInfo)[v].(refCount := mapInfo[v].refCount)
      ensures KeptExcept(old(mapInfo), mapInfo, {e, v}) && mapInfo[e].source == old(mapInfo)[e].source
      ensures Holds(h, nKey, mapInfo[e], vvNew, e)
    {
      hide Agree, RefsBounded;
      var id := LeaveTried(ks, {n});
      e := id;
      // find which new bucket it belongs to
      var bucket := h.newBucket(nKey, mapInfo[id].addr, mapInfo[id].source);
      var s := NewSlot(h, nKey, mapInfo[id].addr, bucket);
      v := if s in vvNew then vvNew[s] else -1;
      NotAnId(h, nKey, T(), {n} + {e});
      ClearNew(s, {n} + {e});
      assert s in old(vvNew) ==> v != n && v != e;
      // Enter it into the new set again.
      FillSlotKeepsAgree(h, nKey, T(), {n} + {e}, id, bucket);
      ghost var t := T();
      mapInfo := mapInfo[id := mapInfo[id].(refCount := 1)];
      vvNew := vvNew[s := id];
      assert T() == SlotFilled(h, nKey, t, id, bucket);
      ghost var t' := T();
      nNew := nNew + 1;
      assert t' == T().(nNew := T().nNew - 1);
      LimboCounts(h, nKey, T(), {n}, e);
      EvictionBounded(old(mapInfo), mapInfo, n, e, v);
    }

    /** The beginning of `MakeTried`: the entry leaves the new table and is no longer counted. */
    method TakeOut(n: int)
      requires Indexed({}) && RefsBounded(mapInfo, {}) && n in mapInfo && !mapInfo[n].inTried
      modifies this`mapInfo, this`vvNew, this`nNew
      ensures Indexed({n}) && RefsBounded(mapInfo, {n})
      ensures mapInfo == old(mapInfo)[n := old(mapInfo)[n].(refCount := 0)] && vvTried == old(vvTried)
      ensures -1 !in mapInfo && -2 !in mapInfo
    {
      hide Agree, RefsBounded;
      LeaveNew(n);
      LimboCounts(h, nKey, T(), {}, n);
      ghost var t := T();
      nNew := nNew - 1;
      assert T() == t.(nNew := t.nNew - 1) && {} + {n} == {n};
      OneUnbounded(old(mapInfo), mapInfo, n);
      NotAnId(h, nKey, T(), {n});
    }

    /** The end of `MakeTried`. */
    method PutInTried(n: int)
      requires Indexed({n}) && !mapInfo[n].inTried && TriedSlot(h, nKey, mapInfo[n].addr) !in vvTried
      modifies this`mapInfo, this`nTried, this`vvTried
      ensures Indexed({}) && mapInfo == old(mapInfo)[n := old(mapInfo)[n].(inTried := true)]
      ensures vvTried == old(vvTried)[TriedSlot(h, nKey, old(mapInfo)[n].addr) := n]
    {
      hide Agree;
      EnterTriedKeepsAgree(h, nKey, T(), {n}, n);
      vvTried := vvTried[TriedSlot(h, nKey, mapInfo[n].addr) := n];
      nTried := nTried + 1;
      mapInfo := mapInfo[n := mapInfo[n].(inTried := true)];
      assert T() == EnteredTried(h, nKey, old(T()), n) && {n} - {n} == {};
    }

    /** `MakeTried`: no assertion of the source fails, and apart from the entry itself only two others
        change: the one it evicts, which stays, and one that may have to make room for that. */
    method MakeTried(n: int) returns (ghost e: int, ghost v: int)
      requires Valid() && n in mapInfo && !mapInfo[n].inTried && mapInfo[n].lastSuccess > 0
      modifies this`mapInfo, this`vRandom, this`mapAddr, this`nNew, this`vvNew, this`nTried, this`vvTried
      ensures Valid() && n in mapInfo
      ensures mapInfo[n] == old(mapInfo)[n].(inTried := true, refCount := 0, randomPos := mapInfo[n].randomPos)
      ensures e != n && (e in old(mapInfo) ==> e in mapInfo && mapInfo[e].addr == old(mapInfo)[e].addr)
      ensures v != n && v != e && (v in old(mapInfo) ==> !old(mapInfo)[v].inTried)
      ensures KeptExcept(old(mapInfo), mapInfo, {n, e, v}) && mapInfo.Keys <= old(mapInfo).Keys
      ensures TakesPlace(h, nKey, old(T()), n, e, T())
    {
      hide Agree, RefsBounded, TimesOk;
      TakeOut(n);
      ghost var info1 := mapInfo;
      // which tried bucket to move the entry to
      var ks := TriedSlot(h, nKey, mapInfo[n].addr);
      e, v := -1, -2;
      if ks in vvTried {
        e, v := EvictTried(ks, n);
      }
      ghost var info2 := mapInfo;
      PutInTried(n);
      MadeTried(old(mapInfo), info1, info2, mapInfo, n, e, v);
    }

    /** Statistics that keep the times in order. */
    method Touch(n: int, i: Info)
      requires Valid() && n in mapInfo && SameSlots(mapInfo[n], i) && i.randomPos == mapInfo[n].randomPos
      requires i.lastTry >= 0 && i.lastSuccess >= 0 && (i.inTried ==> i.lastSuccess != 0)
      modifies this`mapInfo
      ensures Valid() && mapInfo == old(mapInfo)[n := i]
    {
      hide Agree;
      SetStatistics(n, i, {});
    }

    /** `Good_`: mark an entry good, possibly moving it from new to tried.  Once known with this port it
        is tried afterwards, and no entry that was tried before leaves the manager. */
    method Good(addr: Service, nTime: int) returns (ghost v: int)
      requires Valid() && nTime > 0
      modifies this`mapInfo, this`vRandom, this`mapAddr, this`nNew, this`vvNew, this`nTried, this`vvTried
      ensures Valid() && GoodStep(old(T()), addr, nTime, T()) && LosesOnly(old(mapInfo), mapInfo, v)
    {
      hide Agree, RefsBounded, TimesOk, KeptExcept;
      v := -1;
      NotAnId(h, nKey, T(), {});
      var found, n := Find(addr.ip);
      KnownByIp(h, nKey, T(), addr);
      // if not found, or not the exact same service, bail out
      if !found || mapInfo[n].addr != addr {
        return;
      }
      TimeOf(mapInfo, n);
      Touch(n, mapInfo[n].(lastSuccess := nTime, lastTry := nTime, attempts := 0));
      if mapInfo[n].inTried {
        return;
      }
      // find a bucket it is in now
      var rnd :| 0 <= rnd < NEW_BUCKET_COUNT;
      var nUBucket := FindBucket(n, rnd);
      // The search does not come back empty-handed.
      assert nUBucket != -1;
      ghost var info := mapInfo;
      ghost var e;
      e, v := MakeTried(n);
      KeptButOne(info, mapInfo, n, e, v);
    }

    /** The search of `Good_`, starting at a random bucket.  An entry that is not tried is always found. */
    method FindBucket(n: int, rnd: nat) returns (bucket: int)
      requires Valid() && n in mapInfo && !mapInfo[n].inTried && rnd < NEW_BUCKET_COUNT
      ensures 0 <= bucket < NEW_BUCKET_COUNT
      ensures var s := NewSlot(h, nKey, mapInfo[n].addr, bucket); s in vvNew && vvNew[s] == n
    {
      hide Agree;
      ghost var s0 := SomeSlot(h, nKey, T(), {}, n);
      bucket := -1;
      var k := 0;
      while bucket == -1 && k < NEW_BUCKET_COUNT
        invariant 0 <= k <= NEW_BUCKET_COUNT && -1 <= bucket < NEW_BUCKET_COUNT
        invariant bucket == -1 ==> forall j :: 0 <= j < k ==> Probe(j, rnd) != s0.bucket
        invariant bucket != -1 ==> var s := NewSlot(h, nKey, mapInfo[n].addr, bucket); s in vvNew && vvNew[s] == n
      {
        var s := NewSlot(h, nKey, mapInfo[n].addr, Probe(k, rnd));
        if s in vvNew && vvNew[s] == n {
          bucket := Probe(k, rnd);
        }
        k := k + 1;
      }
      var j := if s0.bucket >= rnd then s0.bucket - rnd else s0.bucket - rnd + NEW_BUCKET_COUNT;
      assert Probe(j, rnd) == s0.bucket;
    }

    /** `Attempt_`. */
    method Attempt(addr: Service, nTime: int)
      requires Valid() && nTime >= 0
      modifies this`mapInfo
      ensures Valid() && TouchStep(old(T()), addr, (i: Info) => i.(lastTry := nTime, attempts := i.attempts + 1), T())
    {
      hide Agree, RefsBounded, TimesOk;
      var found, n := Find(addr.ip);
      KnownByIp(h, nKey, T(), addr);
      if !found || mapInfo[n].addr != addr {
        return;
      }
      TimeOf(mapInfo, n);
      Touch(n, mapInfo[n].(lastTry := nTime, attempts := mapInfo[n].attempts + 1));
    }

    /** `Connected_`. */
    method Connected(addr: Service, nTime: nat)
      requires Valid()
      modifies this`mapInfo
      ensures Valid() && TouchStep(old(T()), addr, (i: Info) => if nTime - i.time > 20 * 60 then i.(time := nTime) else i, T())
    {
      hide Agree, RefsBounded, TimesOk;
      var found, n := Find(addr.ip);
      KnownByIp(h, nKey, T(), addr);
      if !found || mapInfo[n].addr != addr {
        return;
      }
      if nTime - mapInfo[n].time > 20 * 60 {
        TimeOf(mapInfo, n);
        Touch(n, mapInfo[n].(time := nTime));
      }
    }

    /** Where an entry heard of from `source` goes. */
    function PlaceFor(n: int, source: NetAddr): Slot
      requires n in mapInfo
      reads this
    {
      NewSlot(h, nKey, mapInfo[n].addr, h.newBucket(nKey, mapInfo[n].addr, source))
    }

    /** The second half of `Add_`: give the entry a place in the new table, or drop it if it has none. */
    method PlaceInNew(n: int, source: NetAddr, now: int) returns (ghost v: int)
      requires Indexed({}) && RefsBounded(mapInfo, {n}) && TimesOk(mapInfo)
      requires n in mapInfo && !mapInfo[n].inTried && 0 <= mapInfo[n].refCount < NEW_BUCKETS_PER_ADDRESS
      modifies this`mapInfo, this`vRandom, this`mapAddr, this`nNew, this`vvNew
      ensures Valid() && v != n
      ensures KeptExcept(old(mapInfo), mapInfo, {n, v}) && mapInfo.Keys <= old(mapInfo).Keys
      ensures v in old(mapInfo) ==> !old(mapInfo)[v].inTried
      ensures n in mapInfo ==> SameFace(old(mapInfo)[n], mapInfo[n])
      ensures n in mapInfo && old(mapInfo)[n].refCount == 0 && (forall s :: s in old(vvNew) ==> old(vvNew)[s] != n) ==> mapInfo[n].refCount == 1
      ensures v in mapInfo ==> v in old(mapInfo) && SameFace(old(mapInfo)[v], mapInfo[v])
      ensures n in mapInfo <==> old(mapInfo)[n].refCount > 0 || HasRoom(old(mapInfo), old(vvNew), old(PlaceFor(n, source)), n, now)
      ensures HasRoom(old(mapInfo), old(vvNew), old(PlaceFor(n, source)), n, now) ==>
                old(PlaceFor(n, source)) in vvNew && vvNew[old(PlaceFor(n, source))] == n
    {
      hide Agree, RefsBounded, TimesOk;
      NotAnId(h, nKey, T(), {});
      v := -1;
      var bucket := h.newBucket(nKey, mapInfo[n].addr, source);
      var s := NewSlot(h, nKey, mapInfo[n].addr, bucket);
      if s in vvNew && vvNew[s] == n {
        Referenced(h, nKey, T(), s);
        AllBounded(mapInfo, mapInfo, n, n, -1);
        return;
      }
      var insert := s !in vvNew;
      if !insert {
        Referenced(h, nKey, T(), s);
        var existing := mapInfo[vvNew[s]];
        if IsTerrible(existing, now) || (existing.refCount > 1 && mapInfo[n].refCount == 0) {
          // Overwrite the existing new table entry.
          insert := true;
        }
      }
      if insert {
        v := if s in vvNew then vvNew[s] else -1;
        ClearNew(s, {});
        FillSlotKeepsAgree(h, nKey, T(), {}, n, bucket);
        ghost var t := T();
        mapInfo := mapInfo[n := mapInfo[n].(refCount := mapInfo[n].refCount + 1)];
        vvNew := vvNew[s := n];
        assert T() == SlotFilled(h, nKey, t, n, bucket);
        AllBounded(old(mapInfo), mapInfo, n, n, v);
        AllTimes(old(mapInfo), mapInfo, n, v);
      } else if mapInfo[n].refCount == 0 {
        DeletedKeepsAgree(h, nKey, T(), {}, n);
        Delete(n);
        AllBounded(old(mapInfo), mapInfo, n, -1, -1);
        AllTimes(old(mapInfo), mapInfo, n, -1);
      } else {
        AllBounded(mapInfo, mapInfo, n, n, -1);
      }
    }

    /** `Add_`: add an address, or another reference to one that is known.  Entries in the tried table are
        left alone, at most one entry other than the added one is lost, and the answer tells whether the
        address was new. */
    method Add(addr: Service, services: set<nat>, time: nat, source: NetAddr, penalty: int, now: int, routable: bool)
      returns (added: bool, ghost v: int)
      requires Valid()
      modifies this`nIdCount, this`mapInfo, this`vRandom, this`mapAddr, this`nNew, this`vvNew
      ensures Valid() && AddStep(h, nKey, old(T()), AddCall(addr, services, time, source, penalty, now, routable), T(), added)
      ensures LosesOnly(old(mapInfo), mapInfo, v)
    {
      hide Agree, RefsBounded, TimesOk, RoomForNew, NewSlot, RefreshedTime, Clamped;
      v := -1;
      NotAnId(h, nKey, T(), {});
      if !routable {
        return false, v;
      }
      var found, n := Find(addr.ip);
      if found {
        v := AddKnown(n, services, time, source, penalty, now);
        return false, v;
      }
      v := AddUnknown(addr, services, time, source, penalty, now);
      added := true;
    }

    /** `Add_` for a known address. */
    method AddKnown(n: int, services: set<nat>, time: nat, source: NetAddr, penalty: int, now: int) returns (ghost v: int)
      requires Valid() && n in mapInfo
      modifies this`mapInfo, this`vRandom, this`mapAddr, this`nNew, this`vvNew
      ensures Valid() && LosesOnly(old(mapInfo), mapInfo, v)
      ensures n in mapInfo && mapInfo[n].inTried == old(mapInfo)[n].inTried && mapInfo[n].services == old(mapInfo)[n].services + services
      ensures mapInfo[n].time == RefreshedTime(old(mapInfo)[n].time, time, penalty, now)
      ensures forall m :: m in mapInfo ==> m in old(mapInfo)
    {
      hide Agree, RefsBounded, TimesOk, RefreshedTime;
      v := -1;
      NotAnId(h, nKey, T(), {});
      var go := Refresh(n, services, time, penalty, now);
      if go {
        RefsOf(mapInfo, n);
        AllButOne(mapInfo, n);
        v := PlaceInNew(n, source, now);
      }
    }

    /** `Add_` for an address that is not known. */
    method AddUnknown(addr: Service, services: set<nat>, time: nat, source: NetAddr, penalty: int, now: int) returns (ghost v: int)
      requires Valid() && addr.ip !in mapAddr
      modifies this`nIdCount, this`mapInfo, this`vRandom, this`mapAddr, this`nNew, this`vvNew
      ensures Valid() && LosesOnly(old(mapInfo), mapInfo, v)
      ensures forall m :: m in mapInfo && m !in old(mapInfo) ==> mapInfo[m].addr == addr
      ensures addr.ip in mapAddr <==>
                RoomForNew(old(mapInfo), old(vvNew), NewSlot(h, nKey, addr, h.newBucket(nKey, addr, source)), now)
      ensures addr.ip in mapAddr ==>
                && NewSlot(h, nKey, addr, h.newBucket(nKey, addr, source)) in vvNew
                && vvNew[NewSlot(h, nKey, addr, h.newBucket(nKey, addr, source))] == mapAddr[addr.ip]
                && mapAddr[addr.ip] in mapInfo
                && var i := mapInfo[mapAddr[addr.ip]];
                   i == Info(addr, services, Clamped(time - penalty), source, 0, 0, 0, 1, false, i.randomPos)
    {
      hide Agree, RefsBounded, TimesOk, Clamped;
      var n := Create(addr, services, Clamped(time - penalty), source);
      NewEntryFits(old(mapInfo), mapInfo, n);
      NewPlaces(h, nKey, old(T()), {});
      ghost var info := mapInfo;
      v := PlaceInNew(n, source, now);
      OthersDiffer(h, nKey, old(T()), info, mapInfo, n, v, addr.ip);
      FoundByIp(h, nKey, T(), n, addr.ip);
    }

    /** The first half of `Add_` for a known address: refresh it, and decide whether to add a reference. */
    method Refresh(n: int, services: set<nat>, time: nat, penalty: int, now: int) returns (go: bool)
      requires Valid() && n in mapInfo
      modifies this`mapInfo
      ensures Valid()
      ensures mapInfo == old(mapInfo)[n := old(mapInfo)[n].(time := RefreshedTime(old(mapInfo)[n].time, time, penalty, now),
                                                             services := old(mapInfo)[n].services + services)]
      ensures go ==> !mapInfo[n].inTried && mapInfo[n].refCount < NEW_BUCKETS_PER_ADDRESS && time > 0
    {
      hide Agree, RefsBounded, TimesOk;
      var info := mapInfo[n];
      // periodically update nTime
      var currentlyOnline := now - time < 24 * 60 * 60;
      var interval := if currentlyOnline then 60 * 60 else 24 * 60 * 60;
      if time != 0 && (info.time == 0 || info.time < time - interval - penalty) {
        info := info.(time := Clamped(time - penalty));
      }
      // add services
      info := info.(services := info.services + services);
      TimeOf(mapInfo, n);
      Touch(n, info);
      // do not update if no new information is present
      if time == 0 || (info.time != 0 && time <= info.time) {
        return false;
      }
      // do not update if the entry was already in the "tried" table, or the max reference count is reached
      if info.inTried || info.refCount == NEW_BUCKETS_PER_ADDRESS {
        return false;
      }
      RefsOf(mapInfo, n);
      // stochastic test: previous nRefCount == N: 2^N times harder to increase it
      var factor := 1;
      for k := 0 to info.refCount
        invariant factor >= 1
      {
        factor := factor * 2;
      }
      if factor > 1 {
        var rnd :| 0 <= rnd < factor;
        if rnd != 0 {
          return false;
        }
      }
      return true;
    }

    /** A random entry from `n` on is brought to position `n`. */
    method Draw(n: nat)
      requires Valid() && n < |vRandom|
      modifies this`mapInfo, this`vRandom
      ensures Valid() && mapInfo.Keys == old(mapInfo).Keys && KeptExcept(old(mapInfo), mapInfo, {})
      ensures |vRandom| == |old(vRandom)| && multiset(vRandom) == multiset(old(vRandom))
      ensures forall i :: 0 <= i < n ==> vRandom[i] == old(vRandom)[i]
      ensures forall i :: 0 <= i < |vRandom| ==> vRandom[i] in mapInfo
    {
      hide Agree, RefsBounded, TimesOk;
      var rnd :| n <= rnd < |vRandom|;
      SwapKeepsAgree(h, nKey, T(), {}, n, rnd);
      SwapRandom(n, rnd);
      SwapKeepsMultiset(old(vRandom), n, rnd);
      StillValid(old(mapInfo), mapInfo);
      PlacesOk(h, nKey, T(), {});
    }

    /** One turn of the loop of `GetAddr_`. */
    method HandNext(n: nat, vAddr: seq<Address>, now: int, ghost info0: Infos, ghost from: seq<nat>)
      returns (vAddr': seq<Address>, ghost from': seq<nat>)
      requires Valid() && n < |vRandom| && Handing(info0, mapInfo, vRandom, vAddr, from, n, now)
      modifies this`mapInfo, this`vRandom
      ensures Valid() && |vRandom| == |old(vRandom)| && multiset(vRandom) == multiset(old(vRandom))
      ensures |vAddr'| <= |vAddr| + 1 && Handing(info0, mapInfo, vRandom, vAddr', from', n + 1, now)
    {
      hide Agree, RefsBounded, TimesOk, IsTerrible, KeptExcept, Handing;
      ghost var info, random := mapInfo, vRandom;
      vAddr', from' := vAddr, from;
      Draw(n);
      HandingStep(info0, info, random, mapInfo, vRandom, vAddr, from, n, now);
      var ai := mapInfo[vRandom[n]];
      if !IsTerrible(ai, now) {
        vAddr' := vAddr + [AddressOf(ai)];
        from' := from + [n];
      }
    }

    /** `GetAddr_`: shuffle vRandom from the front and hand out the entries that are not terrible.  No
        address is handed out twice, and as many as there are, up to 23 in a hundred and 2500. */
    method GetAddr(now: int) returns (vAddr: seq<Address>)
      requires Valid()
      modifies this`mapInfo, this`vRandom
      ensures Valid() && GetAddrStep(old(T()), now, T(), vAddr)
    {
      hide Agree, RefsBounded, TimesOk, IsTerrible, ComesFrom, Handing, NotTerrible, KeptExcept;
      var nNodes := GETADDR_MAX_PCT * |vRandom| / 100;
      if nNodes > GETADDR_MAX {
        nNodes := GETADDR_MAX;
      }
      vAddr := [];
      ghost var from: seq<nat>, upTo: nat, info0 := [], 0, mapInfo;
      HandingStarts(mapInfo, vRandom, now);
      for n := 0 to |vRandom|
        invariant Valid() && |vRandom| == |old(vRandom)| && multiset(vRandom) == multiset(old(vRandom))
        invariant upTo == n && |vAddr| <= nNodes && Handing(info0, mapInfo, vRandom, vAddr, from, n, now)
      {
        if |vAddr| >= nNodes {
          break;
        }
        vAddr, from := HandNext(n, vAddr, now, info0, from);
        upTo := n + 1;
      }
      HandingEnds(h, nKey, info0, T(), vAddr, from, upTo, now);
    }

    /**
     `Check_`, the consistency check of debug builds: it answers 0 exactly when the key is set and everything it
     tests holds.  Looking up the address of an entry in mapAddr inserts it there if it is missing, which goes
     unnoticed for the id 0.
     */
    method Check() returns (err: int)
      requires Shaped(vvNew)
      modifies this`mapAddr
      ensures err == 0 <==> nKey != NULL_KEY && Passes(h, nKey, old(T()))
      ensures old(Valid()) ==> err == if nKey == NULL_KEY then -16 else 0
      ensures old(Valid()) ==> T() == old(T())
      ensures err == 0 ==> forall n :: n in mapInfo ==> mapInfo[n].addr.ip in mapAddr && mapAddr[mapInfo[n].addr.ip] == n
    {
      hide Agree, TriedOk, NewOk, EntriesPass, CountsOk, RefsBounded, TimesOk, Shaped;
      ghost var t := T();
      PassesMeans(h, nKey, t);
      if |vRandom| != nTried + nNew {
        return -7;
      }
      var setTried, mapNew;
      err, setTried, mapNew := CheckEntries();
      if err != 0 {
        return;
      }
      CountsWithoutLimbo();
      SameIds(mapNew.Keys, NewIds(mapInfo));
      if |setTried| != nTried {
        return -9;
      }
      if |mapNew| != nNew {
        return -10;
      }
      err, setTried := CheckTried(setTried);
      if err != 0 {
        return;
      }
      AllStatsOk(t);
      err, mapNew := CheckNew(mapNew);
      if err != 0 {
        return;
      }
      if setTried != {} {
        return -13;
      }
      if mapNew != map[] {
        return -15;
      }
      if nKey == NULL_KEY {
        return -16;
      }
      return 0;
    }

    /** The first loop of `Check_`: every entry by itself, sorting out the tried and the new ones. */
    method CheckEntries() returns (err: int, setTried: set<int>, mapNew: map<int, int>)
      modifies this`mapAddr
      ensures err == 0 <==> EntriesPass(old(T()))
      ensures err == 0 ==> setTried == TriedIds(mapInfo) && mapNew == map n | n in NewIds(mapInfo) :: mapInfo[n].refCount
      ensures err == 0 ==> forall n :: n in mapInfo ==> mapInfo[n].addr.ip in mapAddr && mapAddr[mapInfo[n].addr.ip] == n
      ensures err == 0 && AddrOk(mapInfo, old(mapAddr)) ==> mapAddr == old(mapAddr)
    {
      hide LookedUp, AddrOk, AddrPasses, RandomPasses, StatsOk;
      ghost var t := T();
      err := 0;
      setTried, mapNew := {}, map[];
      var ids := mapInfo.Keys;
      ghost var seen: set<int> := {};
      LookUpStarts(mapInfo, mapAddr);
      while ids != {}
        invariant forall n :: n in mapInfo <==> n in ids || n in seen
        invariant forall n :: n in ids ==> n !in seen
        invariant LookedUp(mapInfo, t.addr, mapAddr, seen) && Sorted(mapInfo, seen, setTried, mapNew)
        invariant forall n :: n in seen ==> EntryPasses(t, n)
        decreases ids
      {
        Inhabited(ids);
        var n :| n in ids;
        LookUp(mapInfo, t.addr, mapAddr, seen, n);
        err := CheckEntry(n);
        if err != 0 {
          assert !EntryPasses(t, n);
          return;
        }
        if mapInfo[n].inTried {
          setTried := setTried + {n};
        } else {
          mapNew := mapNew[n := mapInfo[n].refCount];
        }
        ids, seen := ids - {n}, seen + {n};
      }
      SameIds(seen, mapInfo.Keys);
      AllSorted(mapInfo, setTried, mapNew);
      AllLookedUp(mapInfo, t.addr, mapAddr);
    }

    method CheckEntry(n: int) returns (err: int)
      requires n in mapInfo
      modifies this`mapAddr
      ensures err == 0 <==> StatsOk(mapInfo[n]) && AddrPasses(mapInfo, old(mapAddr), n) && RandomPasses(mapInfo, vRandom, n)
      ensures err == 0 ==> mapAddr == Found(old(mapAddr), mapInfo[n].addr.ip)
    {
      var info := mapInfo[n];
      if info.inTried {
        if info.lastSuccess == 0 {
          return -1;
        }
        if info.refCount != 0 {
          return -2;
        }
      } else {
        if info.refCount < 0 || info.refCount > NEW_BUCKETS_PER_ADDRESS {
          return -3;
        }
        if info.refCount == 0 {
          return -4;
        }
      }
      mapAddr := Found(mapAddr, info.addr.ip);
      if mapAddr[info.addr.ip] != n {
        return -5;
      }
      if info.randomPos < 0 || info.randomPos >= |vRandom| || vRandom[info.randomPos] != n {
        return -14;
      }
      if info.lastTry < 0 {
        return -6;
      }
      if info.lastSuccess < 0 {
        return -8;
      }
      return 0;
    }

    lemma CountsWithoutLimbo()
      ensures CountsOk(mapInfo, nTried, nNew, {}) <==> |TriedIds(mapInfo)| == nTried && |NewIds(mapInfo)| == nNew
    {
      assert NewIds(mapInfo) - {} == NewIds(mapInfo);
    }

    /** Every slot of the tried table; what is left has not been found. */
    method CheckTried(ids: set<int>) returns (err: int, left: set<int>)
      requires ids == TriedIds(mapInfo)
      ensures TriedOk(h, nKey, mapInfo, vvTried) <==> err == 0 && left == {}
    {
      hide TriedOk, Ticking, TriedSlot;
      left := ids;
      var slots := vvTried.Keys;
      ghost var done: set<Slot> := {};
      TickingStarts(h, nKey, mapInfo, vvTried);
      while slots != {}
        invariant slots <= vvTried.Keys && done == vvTried.Keys - slots && Ticking(h, nKey, mapInfo, vvTried, done, left)
        decreases slots
      {
        var s :| s in slots;
        var n := vvTried[s];
        if n !in left {
          TickingFails(h, nKey, mapInfo, vvTried, done, left, s);
          return -11, left;
        }
        TickingKnows(h, nKey, mapInfo, vvTried, done, left, n);
        SlotParts(h, nKey, mapInfo[n].addr, s);
        if h.triedBucket(nKey, mapInfo[n].addr) != s.bucket {
          TickingFails(h, nKey, mapInfo, vvTried, done, left, s);
          return -17, left;
        }
        if h.position(nKey, false, s.bucket, mapInfo[n].addr) != s.pos {
          TickingFails(h, nKey, mapInfo, vvTried, done, left, s);
          return -18, left;
        }
        TickingStep(h, nKey, mapInfo, vvTried, done, left, s);
        left := left - {n};
        slots := slots - {s};
        done := done + {s};
      }
      assert done == vvTried.Keys;
      TickingEnds(h, nKey, mapInfo, vvTried, left);
      err := 0;
    }

    /** Every slot of the new table, counting references down; what is left has not been found. */
    method CheckNew(refs: map<int, int>) returns (err: int, left: map<int, int>)
      requires refs == map n | n in NewIds(mapInfo) :: mapInfo[n].refCount
      requires Shaped(vvNew) && forall n :: n in mapInfo ==> StatsOk(mapInfo[n])
      ensures NewOk(h, nKey, mapInfo, vvNew) <==> err == 0 && left == map[]
    {
      hide NewOk, Counting, StatsOk;
      left := refs;
      var slots := vvNew.Keys;
      ghost var done: set<Slot> := {};
      CountingStarts(h, nKey, mapInfo, vvNew, left);
      while slots != {}
        invariant slots <= vvNew.Keys && done == vvNew.Keys - slots && Counting(h, nKey, mapInfo, vvNew, done, left)
        decreases slots
      {
        var s :| s in slots;
        var n := vvNew[s];
        if n !in left {
          CountingFails(h, nKey, mapInfo, vvNew, done, left, s);
          return -12, left;
        }
        CountingKnows(h, nKey, mapInfo, vvNew, done, left, n);
        if h.position(nKey, true, s.bucket, mapInfo[n].addr) != s.pos {
          CountingFails(h, nKey, mapInfo, vvNew, done, left, s);
          return -19, left;
        }
        assert NewSlotOk(h, nKey, mapInfo, vvNew, s);
        CountingStep(h, nKey, mapInfo, vvNew, done, left, s);
        left := CountedDown(left, n);
        slots := slots - {s};
        done := done + {s};
      }
      assert done == vvNew.Keys;
      CountingEnds(h, nKey, mapInfo, vvNew, left);
      err := 0;
    }
  }

  /** One call of the public interface. */
  datatype Call =
    | AddCall(addr: Service, services: set<nat>, time: nat, source: NetAddr, penalty: int, now: int, routable: bool)
    | GoodCall(addr: Service, at: int)
    | AttemptCall(addr: Service, at: int)
    | ConnectedCall(addr: Service, time: nat)
    | GetAddrCall(now: int)

  /** Times are those of a clock that has started. */
  predicate CallOk(c: Call) {
    (c.GoodCall? ==> c.at > 0) && (c.AttemptCall? ==> c.at >= 0)
  }

  /** What a call hands back: whether an address was new, or a list of addresses. */
  datatype Reply = Added(isNew: bool) | Handed(addresses: seq<Address>) | Done

  /** `Add_` from `t` to `t'`. */
  ghost predicate AddStep(h: Hashes, key: Key, t: Tables, c: Call, t': Tables, isNew: bool)
    requires c.AddCall?
  {
    var ip, slot := c.addr.ip, NewSlot(h, key, c.addr, h.newBucket(key, c.addr, c.source));
    && (isNew <==> c.routable && ip !in t.addr)
    && (!c.routable ==> t' == t)
    && (forall m :: m in t'.info && m !in t.info ==> t'.info[m].addr == c.addr)
    && (isNew ==> (ip in t'.addr <==> RoomForNew(t.info, t.news, slot, c.now)))
    && (isNew && ip in t'.addr ==>
          && t'.addr[ip] in t'.info && slot in t'.news && t'.news[slot] == t'.addr[ip]
          && t'.info[t'.addr[ip]] == Info(c.addr, c.services, Clamped(c.time - c.penalty), c.source, 0, 0, 0, 1, false,
                                          t'.info[t'.addr[ip]].randomPos))
    && (c.routable && ip in t.addr ==>
          && t.addr[ip] in t.info && t.addr[ip] in t'.info
          && var i, i' := t.info[t.addr[ip]], t'.info[t.addr[ip]];
             i'.inTried == i.inTried && i'.services == i.services + c.services
             && i'.time == RefreshedTime(i.time, c.time, c.penalty, c.now))
  }

  /** The new table has the entry `n` in the bucket chosen by its own address and source. */
  ghost predicate Holds(h: Hashes, key: Key, i: Info, news: Table, n: int) {
    var s := NewSlot(h, key, i.addr, h.newBucket(key, i.addr, i.source));
    s in news && news[s] == n
  }

  /** `n` takes its place in the tried table, and whoever was there goes back to its bucket in the new one. */
  ghost predicate TakesPlace(h: Hashes, key: Key, t: Tables, n: int, e: int, t': Tables)
    requires n in t.info
  {
    var ks := TriedSlot(h, key, t.info[n].addr);
    && t'.tried == t.tried[ks := n]
    && (ks in t.tried ==> e == t.tried[ks] && e in t.info && e in t'.info && Holds(h, key, t.info[e], t'.news, e))
  }

  /** `Good_`. */
  ghost predicate GoodStep(t: Tables, addr: Service, at: int, t': Tables) {
    && (forall n :: n in t.info && t.info[n].addr == addr ==>
          n in t'.info && t'.info[n].inTried && t'.info[n].lastSuccess == t'.info[n].lastTry == at && t'.info[n].attempts == 0)
    && ((forall n :: n in t.info ==> t.info[n].addr != addr) ==> t' == t)
    && (forall m :: m in t'.info ==> m in t.info)
  }

  /** `Attempt_` and `Connected_` change the entry of this service only. */
  ghost predicate TouchStep(t: Tables, addr: Service, change: Info -> Info, t': Tables) {
    && t' == t.(info := t'.info) && t'.info.Keys == t.info.Keys
    && forall n :: n in t'.info ==> t'.info[n] == if t.info[n].addr == addr then change(t.info[n]) else t.info[n]
  }

  function Least(a: int, b: int): int { if a <= b then a else b }

  /** The entries that may be handed out. */
  ghost function NotTerrible(info: Infos, now: int): set<int> {
    set n | n in info && !IsTerrible(info[n], now)
  }

  /** `GetAddr_`. */
  ghost predicate GetAddrStep(t: Tables, now: int, t': Tables, vAddr: seq<Address>) {
    && t' == t.(info := t'.info, random := t'.random)
    && t'.info.Keys == t.info.Keys && KeptExcept(t.info, t'.info, {}) && multiset(t'.random) == multiset(t.random)
    // as many as there are, up to the limits
    && |vAddr| == Least(Least(GETADDR_MAX_PCT * |t.random| / 100, GETADDR_MAX), |NotTerrible(t.info, now)|)
    && (forall k :: 0 <= k < |vAddr| ==> ComesFrom(t'.info, vAddr[k], now))
    && (forall j, k :: 0 <= j < k < |vAddr| ==> vAddr[j].addr.ip != vAddr[k].addr.ip)
  }

  /** No entry but `v` is lost, and that not if it is tried. */
  ghost predicate LosesOnly(info: Infos, info': Infos, v: int) {
    (v in info ==> !info[v].inTried) && forall n :: n in info && n != v ==> n in info' && info'[n].addr == info[n].addr
  }

  /** At most one entry is lost, and never a tried one. */
  ghost predicate LosesAtMostOne(info: Infos, info': Infos) {
    exists v :: LosesOnly(info, info', v)
  }

  /** One call leads from `t` to `t'` and hands back `r`. */
  ghost predicate Step(h: Hashes, key: Key, t: Tables, c: Call, t': Tables, r: Reply) {
    && LosesAtMostOne(t.info, t'.info)
    && match c
       case AddCall(_, _, _, _, _, _, _) => r.Added? && AddStep(h, key, t, c, t', r.isNew)
       case GoodCall(addr, at) => r == Done && GoodStep(t, addr, at, t')
       case AttemptCall(addr, at) =>
         r == Done && TouchStep(t, addr, (i: Info) => i.(lastTry := at, attempts := i.attempts + 1), t')
       case ConnectedCall(addr, time) =>
         r == Done && TouchStep(t, addr, (i: Info) => if time - i.time > 20 * 60 then i.(time := time) else i, t')
       case GetAddrCall(now) => r.Handed? && GetAddrStep(t, now, t', r.addresses)
  }

  method Perform(m: Manager, c: Call) returns (r: Reply)
    requires m.Valid() && CallOk(c)
    modifies m
    ensures m.Valid() && m.nKey == old(m.nKey) && Step(m.h, m.nKey, old(m.T()), c, m.T(), r)
  {
    hide Agree, RefsBounded, TimesOk, AddStep, GoodStep, GetAddrStep;
    ghost var v := -1;
    NotAnId(m.h, m.nKey, m.T(), {});
    match c {
      case AddCall(addr, services, time, source, penalty, now, routable) =>
        var added;
        added, v := m.Add(addr, services, time, source, penalty, now, routable);
        r := Added(added);
      case GoodCall(addr, at) =>
        v := m.Good(addr, at);
        r := Done;
      case AttemptCall(addr, at) =>
        m.Attempt(addr, at);
        r := Done;
      case ConnectedCall(addr, time) =>
        m.Connected(addr, time);
        r := Done;
      case GetAddrCall(now) =>
        ghost var info := m.mapInfo;
        var addresses := m.GetAddr(now);
        r := Handed(addresses);
        GetAddrLosesNone(old(m.T()), now, m.T(), addresses, v);
    }
    assert LosesOnly(old(m.mapInfo), m.mapInfo, v);
  }

  lemma GetAddrLosesNone(t: Tables, now: int, t': Tables, vAddr: seq<Address>, v: int)
    requires GetAddrStep(t, now, t', vAddr) && v !in t.info
    ensures LosesOnly(t.info, t'.info, v)
  {
  }

  /**
   Every run from the empty manager.  `trace` holds the tables before and after every call; each step is what
   that call does, no index ever disagrees with another, and `Check_` after every call answers accordingly.
   */
  method Run(h: Hashes, nKey: Key, calls: seq<Call>)
    returns (m: Manager, trace: seq<Tables>, replies: seq<Reply>, errs: seq<int>)
    requires forall i :: 0 <= i < |calls| ==> CallOk(calls[i])
    ensures m.h == h && m.nKey == nKey && |trace| == |calls| + 1 && |replies| == |errs| == |calls|
    ensures trace[0] == Tables(0, map[], map[], [], 0, map[], 0, map[]) && trace[|calls|] == m.T()
    ensures forall i :: 0 <= i < |calls| ==> Step(h, nKey, trace[i], calls[i], trace[i + 1], replies[i])
    ensures forall i :: 0 <= i <= |calls| ==> Sane(h, nKey, trace[i])
    ensures forall i :: 0 <= i < |calls| ==> errs[i] == if nKey == NULL_KEY then -16 else 0
    ensures forall i :: 0 <= i < |calls| ==> (errs[i] == 0 <==> nKey != NULL_KEY && Passes(h, nKey, trace[i + 1]))
  {
    hide Agree, RefsBounded, TimesOk, Step, Passes, Shaped;
    m := new Manager(h, nKey);
    trace, replies, errs := [m.T()], [], [];
    for i := 0 to |calls|
      invariant m.Valid() && fresh(m) && m.h == h && m.nKey == nKey && |trace| == i + 1 && |replies| == |errs| == i
      invariant trace[0] == Tables(0, map[], map[], [], 0, map[], 0, map[]) && trace[i] == m.T()
      invariant forall j :: 0 <= j < i ==> Step(h, nKey, trace[j], calls[j], trace[j + 1], replies[j])
      invariant forall j :: 0 <= j <= i ==> Sane(h, nKey, trace[j])
      invariant forall j :: 0 <= j < i ==> errs[j] == if nKey == NULL_KEY then -16 else 0
      invariant forall j :: 0 <= j < i ==> (errs[j] == 0 <==> nKey != NULL_KEY && Passes(h, nKey, trace[j + 1]))
    {
      var r := Perform(m, calls[i]);
      IsShaped(h, nKey, m.T());
      var err := m.Check();
      trace, replies, errs := trace + [m.T()], replies + [r], errs + [err];
    }
  }

  /** The same slot for every address. */
  const OneSlot: Hashes := Hashes((_, _) => 0, (_, _, _) => 0, (_, _, _, _) => 0)

  /** An address whose slot is held by an entry that cannot go is reported as added, and is not there. */
  method AddedButDropped(key: Key, first: Service, second: Service, now: nat) returns (m: Manager, added: bool)
    requires first.ip != second.ip && now > 0
    ensures m.Valid() && added && second.ip !in m.mapAddr
  {
    hide Agree, RefsBounded, TimesOk;
    m := new Manager(OneSlot, key);
    ghost var v;
    added, v := m.Add(first, {}, now, 0, 0, now, true);
    KnownPlaces(m.h, m.nKey, m.T());
    assert !IsTerrible(m.mapInfo[m.mapAddr[first.ip]], now);
    OnlyKnown(m.h, key, m.T(), first);
    added, v := m.Add(second, {}, now, 0, 0, now, true);
  }

  /** `Clear` on a manager that holds an address leaves one that fails its own check. */
  method ClearedIsInconsistent(h: Hashes, key: Key, addr: Service, now: nat) returns (err: int)
    ensures err != 0
  {
    hide Agree, RefsBounded, TimesOk, Passes;
    var m := new Manager(h, key);
    var added;
    ghost var v;
    added, v := m.Add(addr, {}, now, 0, 0, now, true);
    KnownPlaces(m.h, m.nKey, m.T());
    assert m.mapAddr[addr.ip] in m.mapInfo;
    m.Clear(key);
    err := m.Check();
  }

  lemma OnlyKnown(h: Hashes, key: Key, t: Tables, addr: Service)
    requires Agree(h, key, t, {}) && forall n :: n in t.info ==> t.info[n].addr == addr
    ensures forall ip :: ip in t.addr ==> ip == addr.ip
  {
    forall ip | ip in t.addr ensures ip == addr.ip {
      var n := t.addr[ip];
      assert n in t.info && t.info[n].addr.ip == ip;
      assert t.info[n].addr == addr;
    }
  }

  lemma KnownPlaces(h: Hashes, key: Key, t: Tables)
    requires Agree(h, key, t, {})
    ensures forall ip :: ip in t.addr ==> t.addr[ip] in t.info
  {
  }

  lemma IsShaped(h: Hashes, key: Key, t: Tables)
    requires Agree(h, key, t, {})
    ensures Shaped(t.news)
  {
    forall s | s in t.news ensures s.bucket < NEW_BUCKET_COUNT { assert NewSlotOk(h, key, t.info, t.news, s); }
  }

  /** Each address handed out comes from its own place in the part already shuffled. */
  ghost predicate HandedOut(info: Infos, random: seq<int>, vAddr: seq<Address>, from: seq<nat>, n: nat, now: int) {
    && |from| == |vAddr|
    && (forall k :: 0 <= k < |from| ==> from[k] < n && from[k] < |random|)
    && (forall j, k :: 0 <= j < k < |from| ==> from[j] < from[k])
    && (forall k :: 0 <= k < |from| ==>
          random[from[k]] in info && vAddr[k] == AddressOf(info[random[from[k]]]) && !IsTerrible(info[random[from[k]]], now))
  }

  /** No place that was looked at is left out, unless its entry is terrible. */
  ghost predicate NoneLeftOut(info: Infos, random: seq<int>, from: seq<nat>, n: nat, now: int) {
    forall i :: 0 <= i < n && i < |random| ==> random[i] in info && (IsTerrible(info[random[i]], now) || i in from)
  }

  /** Between two turns of the loop of `GetAddr_`, which began with the entries `info0`. */
  ghost predicate Handing(info0: Infos, info: Infos, random: seq<int>, vAddr: seq<Address>, from: seq<nat>, n: nat, now: int) {
    && info.Keys == info0.Keys && KeptExcept(info0, info, {})
    && HandedOut(info, random, vAddr, from, n, now) && NoneLeftOut(info, random, from, n, now)
  }

  /** After the draw that brings an entry to place `n`, it is handed out unless it is terrible. */
  lemma HandingStep(info0: Infos, info: Infos, random: seq<int>, info': Infos, random': seq<int>, vAddr: seq<Address>, from: seq<nat>, n: nat, now: int)
    requires Handing(info0, info, random, vAddr, from, n, now) && n < |random| == |random'|
    requires info'.Keys == info.Keys && KeptExcept(info, info', {})
    requires forall i :: 0 <= i < n ==> random'[i] == random[i]
    requires forall i :: 0 <= i < |random'| ==> random'[i] in info'
    ensures var i := info'[random'[n]];
            if IsTerrible(i, now) then Handing(info0, info', random', vAddr, from, n + 1, now)
            else Handing(info0, info', random', vAddr + [AddressOf(i)], from + [n], n + 1, now)
  {
    hide IsTerrible, KeptExcept, NoneLeftOut, HandedOut;
    var none: set<int> := {};
    KeptTransitive(info0, info, info', none, none);
    assert none + none == none;
    StillHandedOut(info, random, info', random', vAddr, from, n, now);
    StillNoneLeftOut(info, random, info', random', from, n, now);
    OneMoreLookedAt(info', random', from, n, now);
    OneMoreHanded(info', random', vAddr, from, n, now);
  }

  lemma OneMoreHanded(info: Infos, random: seq<int>, vAddr: seq<Address>, from: seq<nat>, n: nat, now: int)
    requires HandedOut(info, random, vAddr, from, n, now) && n < |random| && random[n] in info
    ensures var i := info[random[n]];
            if IsTerrible(i, now) then HandedOut(info, random, vAddr, from, n + 1, now)
            else HandedOut(info, random, vAddr + [AddressOf(i)], from + [n], n + 1, now)
  {
    hide IsTerrible, AddressOf;
  }

  lemma HandingStarts(info: Infos, random: seq<int>, now: int)
    ensures Handing(info, info, random, [], [], 0, now)
  {
    KeptReflexive(info);
  }

  lemma HandingEnds(h: Hashes, key: Key, info0: Infos, t: Tables, vAddr: seq<Address>, from: seq<nat>, n: nat, now: int)
    requires Agree(h, key, t, {}) && Handing(info0, t.info, t.random, vAddr, from, n, now)
    ensures t.info.Keys == info0.Keys && KeptExcept(info0, t.info, {})
    ensures forall j, k :: 0 <= j < k < |vAddr| ==> vAddr[j].addr.ip != vAddr[k].addr.ip
    ensures forall k :: 0 <= k < |vAddr| ==> ComesFrom(t.info, vAddr[k], now)
    ensures |vAddr| <= |NotTerrible(info0, now)| && (n >= |t.random| ==> |vAddr| == |NotTerrible(info0, now)|)
  {
    hide Agree, IsTerrible, ComesFrom, HandedOut, NoneLeftOut, NotTerrible;
    NoneTwice(h, key, t, vAddr, from, n, now);
    HandedCount(h, key, t, vAddr, from, n, now);
    SameTerrible(info0, t.info, now);
  }

  lemma StillNoneLeftOut(info: Infos, random: seq<int>, info': Infos, random': seq<int>, from: seq<nat>, n: nat, now: int)
    requires NoneLeftOut(info, random, from, n, now) && KeptExcept(info, info', {}) && |random'| == |random|
    requires forall i :: 0 <= i < n && i < |random| ==> random'[i] == random[i]
    ensures NoneLeftOut(info', random', from, n, now)
  {
  }

  lemma OneMoreLookedAt(info: Infos, random: seq<int>, from: seq<nat>, n: nat, now: int)
    requires NoneLeftOut(info, random, from, n, now) && n < |random| && random[n] in info
    ensures NoneLeftOut(info, random, if IsTerrible(info[random[n]], now) then from else from + [n], n + 1, now)
  {
    hide IsTerrible;
    var more := from + [n];
    assert more[|from|] == n;
    forall i | i in from ensures i in more {
      var k :| 0 <= k < |from| && from[k] == i;
      assert more[k] == i;
    }
  }

  /** As many as there are in the places looked at. */
  lemma HandedCount(h: Hashes, key: Key, t: Tables, vAddr: seq<Address>, from: seq<nat>, n: nat, now: int)
    requires Agree(h, key, t, {}) && HandedOut(t.info, t.random, vAddr, from, n, now) && NoneLeftOut(t.info, t.random, from, n, now)
    ensures |vAddr| <= |NotTerrible(t.info, now)|
    ensures n >= |t.random| ==> |vAddr| == |NotTerrible(t.info, now)|
  {
    assert RandomOk(t.info, t.random);
    hide Agree, IsTerrible;
    var ids := seq(|from|, k requires 0 <= k < |from| && from[k] < |t.random| => t.random[from[k]]);
    forall j, k | 0 <= j < k < |ids| ensures ids[j] != ids[k] {
      assert t.info[ids[j]].randomPos == from[j] && t.info[ids[k]].randomPos == from[k];
    }
    forall k | 0 <= k < |ids| ensures ids[k] in NotTerrible(t.info, now) {}
    DistinctBound(ids, NotTerrible(t.info, now));
    if n >= |t.random| {
      forall m | m in NotTerrible(t.info, now) ensures m in ids {
        var i := t.info[m].randomPos;
        assert t.random[i] == m && i in from;
        var k :| 0 <= k < |from| && from[k] == i;
        assert ids[k] == m;
      }
      EnumerationCounts(ids, NotTerrible(t.info, now));
    }
  }

  lemma SameTerrible(info: Infos, info': Infos, now: int)
    requires KeptExcept(info, info', {})
    ensures NotTerrible(info, now) == NotTerrible(info', now)
  {
    SameIds(NotTerrible(info, now), NotTerrible(info', now));
  }

  /** `a` is the address of an entry that is not terrible. */
  ghost predicate ComesFrom(info: Infos, a: Address, now: int) {
    exists n :: n in info && a == AddressOf(info[n]) && !IsTerrible(info[n], now)
  }

  lemma KeptReflexive(info: Infos)
    ensures KeptExcept(info, info, {})
  {
  }

  lemma SwapKeepsMultiset(s: seq<int>, i: nat, j: nat)
    requires i < |s| && j < |s|
    ensures multiset(s[i := s[j]][j := s[i]]) == multiset(s)
  {
  }

  lemma StillValid(info: Infos, info': Infos)
    requires KeptExcept(info, info', {})
    ensures RefsBounded(info, {}) ==> RefsBounded(info', {})
    ensures TimesOk(info) ==> TimesOk(info')
  {
    if TimesOk(info) {
      forall m | m in info' ensures info'[m].lastTry >= 0 && info'[m].lastSuccess >= 0 && (info'[m].inTried ==> info'[m].lastSuccess != 0) {
        assert m in info;
      }
    }
  }

  lemma PlacesOk(h: Hashes, key: Key, t: Tables, limbo: set<int>)
    requires Agree(h, key, t, limbo)
    ensures forall i :: 0 <= i < |t.random| ==> t.random[i] in t.info
  {
  }

  lemma StillHandedOut(info: Infos, random: seq<int>, info': Infos, random': seq<int>, vAddr: seq<Address>, from: seq<nat>, n: nat, now: int)
    requires HandedOut(info, random, vAddr, from, n, now) && KeptExcept(info, info', {}) && |random'| == |random|
    requires forall i :: 0 <= i < n && i < |random| ==> random'[i] == random[i]
    requires forall i :: 0 <= i < |random'| ==> random'[i] in info'
    ensures HandedOut(info', random', vAddr, from, n, now)
  {
  }

  lemma NoneTwice(h: Hashes, key: Key, t: Tables, vAddr: seq<Address>, from: seq<nat>, n: nat, now: int)
    requires Agree(h, key, t, {}) && HandedOut(t.info, t.random, vAddr, from, n, now)
    ensures forall j, k :: 0 <= j < k < |vAddr| ==> vAddr[j].addr.ip != vAddr[k].addr.ip
    ensures forall k :: 0 <= k < |vAddr| ==> ComesFrom(t.info, vAddr[k], now)
  {
    forall k | 0 <= k < |vAddr| ensures ComesFrom(t.info, vAddr[k], now) {
      var n := t.random[from[k]];
      assert n in t.info && vAddr[k] == AddressOf(t.info[n]) && !IsTerrible(t.info[n], now);
    }
    forall j, k | 0 <= j < k < |vAddr| ensures vAddr[j].addr.ip != vAddr[k].addr.ip {
      var a, b := t.random[from[j]], t.random[from[k]];
      assert t.info[a].randomPos == from[j] && t.info[b].randomPos == from[k];
    }
  }

  function Clamped(x: int): nat {
    if x < 0 then 0 else x
  }

  lemma Referenced(h: Hashes, key: Key, t: Tables, s: Slot)
    requires Agree(h, key, t, {}) && s in t.news
    ensures t.news[s] in t.info && !t.info[t.news[s]].inTried && t.info[t.news[s]].refCount > 0
  {
    assert NewSlotOk(h, key, t.info, t.news, s);
    assert s in Refs(t.news, t.news[s]);
  }

  lemma RefsOf(info: Infos, n: int)
    requires RefsBounded(info, {}) && n in info
    ensures !info[n].inTried ==> 1 <= info[n].refCount <= NEW_BUCKETS_PER_ADDRESS
  {
  }

  lemma AllButOne(info: Infos, n: int)
    requires RefsBounded(info, {})
    ensures RefsBounded(info, {n})
  {
  }

  /** The entries agree in everything but the number of references and the place in vRandom. */
  ghost predicate SameFace(i: Info, j: Info) {
    j == i.(refCount := j.refCount, randomPos := j.randomPos)
  }

  /** A slot can be given to an entry: it is free, its own, or held by one that can go. */
  ghost predicate HasRoom(info: Infos, news: Table, s: Slot, n: int, now: int)
    requires n in info
  {
    || s !in news || news[s] == n
    || (news[s] in info && (IsTerrible(info[news[s]], now) || (info[news[s]].refCount > 1 && info[n].refCount == 0)))
  }

  /** The same for an entry that is new. */
  ghost predicate RoomForNew(info: Infos, news: Table, s: Slot, now: int) {
    s !in news || (news[s] in info && (IsTerrible(info[news[s]], now) || info[news[s]].refCount > 1))
  }

  /** The time of a known entry after it has been heard of again. */
  function RefreshedTime(known: nat, time: nat, penalty: int, now: int): nat {
    var interval := if now - time < 24 * 60 * 60 then 60 * 60 else 24 * 60 * 60;
    if time != 0 && (known == 0 || known < time - interval - penalty) then Clamped(time - penalty) else known
  }

  /** A known time never goes back, and changes only to one that is later by more than an hour, or a day if that is how old
      it is; afterwards the entry is no more than that behind what was heard. */
  lemma RefreshedTimeIs(known: nat, time: nat, penalty: int, now: int)
    ensures var r, interval := RefreshedTime(known, time, penalty, now), if now - time < 86400 then 3600 else 86400;
            && known <= r && (time == 0 ==> r == known)
            && (r != known ==> r == time - penalty && (known == 0 || r > known + interval))
            && (time != 0 ==> r + interval >= time - penalty && (known == 0 ==> r >= time - penalty))
  {
  }

  lemma NewPlaces(h: Hashes, key: Key, t: Tables, limbo: set<int>)
    requires Agree(h, key, t, limbo)
    ensures forall s :: s in t.news ==> t.news[s] in t.info
  {
    forall s | s in t.news ensures t.news[s] in t.info { assert NewSlotOk(h, key, t.info, t.news, s); }
  }

  lemma FoundByIp(h: Hashes, key: Key, t: Tables, n: int, ip: NetAddr)
    requires Agree(h, key, t, {}) && (n in t.info ==> t.info[n].addr.ip == ip)
    requires forall m :: m in t.info && m != n ==> t.info[m].addr.ip != ip
    ensures ip in t.addr <==> n in t.info
    ensures ip in t.addr ==> t.addr[ip] == n
  {
    if ip in t.addr {
      var m := t.addr[ip];
      assert m in t.info && t.info[m].addr.ip == ip;
    }
  }

  /** Other entries have other addresses, before and after. */
  lemma OthersDiffer(h: Hashes, key: Key, t: Tables, info: Infos, info': Infos, n: int, v: int, ip: NetAddr)
    requires Agree(h, key, t, {}) && ip !in t.addr && n in info && info == t.info[n := info[n]]
    requires KeptExcept(info, info', {n, v}) && (v in info' ==> v in info && SameFace(info[v], info'[v])) && n != v
    ensures forall m :: m in info' && m != n ==> info'[m].addr.ip != ip
  {
    forall m | m in info' && m != n ensures info'[m].addr.ip != ip {
      assert m in t.info && info'[m].addr == t.info[m].addr && t.info[m].addr.ip in t.addr;
    }
  }

  lemma NewEntryFits(info: Infos, info': Infos, n: int)
    requires RefsBounded(info, {}) && TimesOk(info) && n in info' && info' == info[n := info'[n]]
    requires info'[n].lastTry == 0 && info'[n].lastSuccess == 0 && !info'[n].inTried
    ensures RefsBounded(info', {n}) && TimesOk(info')
  {
  }

  /** Bounds on all entries, given them on all but `n`, and that `k` is `n` if that is still there. */
  lemma AllBounded(info: Infos, info': Infos, n: int, k: int, v: int)
    requires RefsBounded(info, {n}) && KeptExcept(info, info', {n, v}) && n != v
    requires k == n ==> n in info' && 1 <= info'[n].refCount <= NEW_BUCKETS_PER_ADDRESS
    requires k != n ==> n !in info'
    requires v in info' ==> v in info && !info[v].inTried && 1 <= info'[v].refCount <= info[v].refCount
    ensures RefsBounded(info', {})
  {
  }

  lemma AllTimes(info: Infos, info': Infos, n: int, v: int)
    requires TimesOk(info) && KeptExcept(info, info', {n, v}) && n in info && n != v
    requires n in info' ==> info'[n].lastTry == info[n].lastTry && info'[n].lastSuccess == info[n].lastSuccess && !info'[n].inTried
    requires v in info' ==> v in info && info'[v].lastTry == info[v].lastTry && info'[v].lastSuccess == info[v].lastSuccess && info'[v].inTried == info[v].inTried
    ensures TimesOk(info')
  {
    forall m | m in info' ensures info'[m].lastTry >= 0 && info'[m].lastSuccess >= 0 && (info'[m].inTried ==> info'[m].lastSuccess != 0) {
      if m != n && m != v { assert m in info; }
    }
  }

  /** The bucket looked at in round `k` of the search. */
  function Probe(k: nat, rnd: nat): nat {
    (k + rnd) % NEW_BUCKET_COUNT
  }

  lemma TimeOf(info: Infos, n: int)
    requires TimesOk(info) && n in info
    ensures info[n].lastTry >= 0 && info[n].lastSuccess >= 0 && (info[n].inTried ==> info[n].lastSuccess != 0)
  {
  }

  /** At most one entry has a given address. */
  lemma KnownByIp(h: Hashes, key: Key, t: Tables, addr: Service)
    requires Agree(h, key, t, {})
    ensures forall n :: n in t.info && t.info[n].addr == addr ==> addr.ip in t.addr && t.addr[addr.ip] == n
  {
  }

  lemma KeptButOne(info: Infos, info': Infos, n: int, e: int, v: int)
    requires KeptExcept(info, info', {n, e, v}) && n in info' && (e in info ==> e in info' && info'[e].addr == info[e].addr)
    requires n in info && info'[n].addr == info[n].addr
    ensures forall m :: m in info && m != v ==> m in info' && info'[m].addr == info[m].addr
  {
  }

  lemma SomeSlot(h: Hashes, key: Key, t: Tables, limbo: set<int>, n: int) returns (s: Slot)
    requires Agree(h, key, t, limbo) && n in t.info && t.info[n].refCount > 0
    ensures s.bucket < NEW_BUCKET_COUNT && s == NewSlot(h, key, t.info[n].addr, s.bucket) && s in t.news && t.news[s] == n
  {
    assert Refs(t.news, n) != {};
    s :| s in Refs(t.news, n);
    assert NewSlotOk(h, key, t.info, t.news, s);
  }

  lemma OneUnbounded(info: Infos, info': Infos, n: int)
    requires RefsBounded(info, {}) && n in info && info' == info[n := info[n].(refCount := 0)]
    ensures RefsBounded(info', {n})
  {
  }

  /** From the old entries to those after MakeTried. */
  lemma MadeTried(info0: Infos, info1: Infos, info2: Infos, info3: Infos, n: int, e: int, v: int)
    requires n in info0 && info0[n].lastSuccess > 0 && TimesOk(info0) && n != e && n != v && v != e
    requires info1 == info0[n := info0[n].(refCount := 0)] && KeptExcept(info1, info2, {e, v})
    requires RefsBounded(info2, {n})
    requires e in info2 ==> e in info1 && info2[e].lastTry == info1[e].lastTry && info2[e].lastSuccess == info1[e].lastSuccess
                            && (info2[e].inTried ==> info1[e].inTried)
    requires v in info2 ==> v in info1 && info2[v] == info1[v].(refCount := info2[v].refCount)
    requires n in info2 && info3 == info2[n := info2[n].(inTried := true)]
    ensures KeptExcept(info0, info3, {n, e, v}) && RefsBounded(info3, {}) && TimesOk(info3) && info3.Keys <= info0.Keys
    ensures info3[n] == info0[n].(inTried := true, refCount := 0, randomPos := info3[n].randomPos)
  {
    forall m | m in info3 ensures info3[m].lastTry >= 0 && info3[m].lastSuccess >= 0 && (info3[m].inTried ==> info3[m].lastSuccess != 0) {
      if m != n { assert m in info2 && m in info1 && m in info0; }
    }
    forall m | m in info3.Keys ensures m in info0.Keys {}
  }

  /** Within a bucket an entry can only be at its hashed position. */
  lemma OneSlotPerBucket(h: Hashes, key: Key, t: Tables, limbo: set<int>, n: int, bucket: nat)
    requires Agree(h, key, t, limbo) && n in t.info
    ensures forall s :: s in t.news && t.news[s] == n && s.bucket == bucket ==> s == NewSlot(h, key, t.info[n].addr, bucket)
    ensures forall s :: s in t.news ==> s.bucket < NEW_BUCKET_COUNT
  {
    forall s | s in t.news
      ensures s.bucket < NEW_BUCKET_COUNT && (t.news[s] == n && s.bucket == bucket ==> s == NewSlot(h, key, t.info[n].addr, bucket))
    {
      assert NewSlotOk(h, key, t.info, t.news, s);
    }
  }

  lemma Unreferenced(h: Hashes, key: Key, t: Tables, limbo: set<int>, n: int)
    requires Agree(h, key, t, limbo) && n in t.info
    requires forall s :: s in t.news && t.news[s] == n ==> s.bucket >= NEW_BUCKET_COUNT
    ensures t.info[n].refCount == 0 && forall s :: s in t.news ==> t.news[s] != n
  {
    OneSlotPerBucket(h, key, t, limbo, n, 0);
    assert Refs(t.news, n) == {};
  }

  lemma NotAnId(h: Hashes, key: Key, t: Tables, limbo: set<int>)
    requires Agree(h, key, t, limbo)
    ensures -1 !in t.info && -2 !in t.info
  {
  }

  lemma EvictionBounded(info: Infos, info': Infos, n: int, e: int, v: int)
    requires RefsBounded(info, {n}) && KeptExcept(info, info', {e, v})
    requires e in info' ==> info'[e].refCount == 1
    requires v in info' && v != e ==> v in info && !info[v].inTried && v != n && 1 <= info'[v].refCount <= info[v].refCount
    ensures RefsBounded(info', {n})
  {
  }
}
