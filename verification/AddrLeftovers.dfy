/**
 Loading into an address manager that was not empty (src/addrman.h, Clear and Unserialize).  `Clear` empties
 vRandom and the tables but neither mapInfo nor mapAddr, so entries from before are still there while a file is
 read.  `Own` takes them out again: what is left are the tables of the file alone, whose indexes agree all the
 time.  The loaded manager is consistent exactly when nothing had to be taken out.
 */
module AddrLeftovers {
  import opened AddrTables
  import opened AddrCheck

  /** Entries from before: each is tried or has references, as in every manager between calls. */
  ghost predicate Leftover(stale: Infos) {
    forall n :: n in stale ==> 0 <= n && stale[n].refCount >= 0 && (stale[n].inTried || stale[n].refCount > 0)
  }

  /** An entry read into the place of an old one has its number of references, its flag and its last try added. */
  function Adjusted(i: Info, was: Info): Info {
    i.(refCount := i.refCount - was.refCount, inTried := false, lastTry := 0)
  }

  /** The entries that come from the file: those below `b` were read into the places of old ones, those from `b`
      up to `c` replaced old ones. */
  ghost function OwnInfo(info: Infos, stale: Infos, b: int, c: int): Infos {
    map n | n in info && (n in stale ==> n < c) :: if n in stale && n < b then Adjusted(info[n], stale[n]) else info[n]
  }

  ghost function Own(t: Tables, stale: Infos, b: int, c: int, ips: set<NetAddr>): Tables {
    t.(info := OwnInfo(t.info, stale, b, c), addr := t.addr - ips)
  }

  /** What has become of the old entries. */
  ghost predicate Stays(info: Infos, stale: Infos, b: int, c: int) {
    forall n :: n in stale ==>
      && n in info
      && (n < b ==> info[n].inTried == stale[n].inTried)
      && (b <= n < c ==> info[n].inTried)
      && (n >= c ==> info[n] == stale[n])
  }

  /** The old entries have been replaced, every one, and so have their addresses. */
  ghost predicate Gone(stale: Infos, b: int, c: int, ips: set<NetAddr>) {
    ips == {} && forall n :: n in stale ==> b <= n < c
  }

  lemma NothingTaken(t: Tables, stale: Infos, b: int, c: int, ips: set<NetAddr>)
    requires Gone(stale, b, c, ips)
    ensures Own(t, stale, b, c, ips) == t
  {
    var info := OwnInfo(t.info, stale, b, c);
    forall n ensures n in info.Keys <==> n in t.info.Keys {}
    SameIds(info.Keys, t.info.Keys);
    assert info == t.info;
    assert t.addr - ips == t.addr;
  }

  /** The loaded tables agree exactly when all the old entries are gone. */
  lemma LoadedIffGone(h: Hashes, key: Key, t: Tables, stale: Infos, b: int, c: int, ips: set<NetAddr>)
    requires Leftover(stale) && Stays(t.info, stale, b, c) && ips <= t.addr.Keys && b <= c
    requires Agree(h, key, Own(t, stale, b, c, ips), {})
    ensures Agree(h, key, t, {}) <==> Gone(stale, b, c, ips)
  {
    if Gone(stale, b, c, ips) {
      NothingTaken(t, stale, b, c, ips);
    } else if n: int :| n in stale && !(b <= n < c) {
      EntryIsOdd(h, key, t, stale, b, c, ips, n);
    } else {
      AddressStays(h, key, t, stale, b, c, ips);
    }
  }

  /** `Check_` notices old entries that are left, but not old addresses. */
  lemma PassesIffReplaced(h: Hashes, key: Key, t: Tables, stale: Infos, b: int, c: int, ips: set<NetAddr>)
    requires Leftover(stale) && Stays(t.info, stale, b, c) && b <= c
    requires Agree(h, key, Own(t, stale, b, c, ips), {}) && TimesOk(OwnInfo(t.info, stale, b, c))
    requires forall n :: n in t.info && !t.info[n].inTried ==> t.info[n].refCount != 0
    requires forall n :: n in OwnInfo(t.info, stale, b, c) ==> OwnInfo(t.info, stale, b, c)[n].refCount <= NEW_BUCKETS_PER_ADDRESS
    ensures Passes(h, key, t) <==> forall n :: n in stale ==> b <= n < c
  {
    if n: int :| n in stale && !(b <= n < c) {
      EntryIsOdd(h, key, t, stale, b, c, ips, n);
      assert RandomPasses(t.info, t.random, n) || !EntryPasses(t, n);
    } else {
      var t' := t.(addr := t.addr - ips);
      NothingTaken(t', stale, b, c, {});
      assert t'.addr - {} == t'.addr;
      assert Own(t, stale, b, c, ips) == Own(t', stale, b, c, {});
      hide OwnInfo, Stays;
      MoreAddressesPass(h, key, t', t);
    }
  }

  /** Addresses that no entry has go unnoticed. */
  lemma MoreAddressesPass(h: Hashes, key: Key, t: Tables, t': Tables)
    requires Agree(h, key, t, {}) && TimesOk(t.info) && t' == t.(addr := t'.addr)
    requires forall ip :: ip in t.addr ==> ip in t'.addr && t'.addr[ip] == t.addr[ip]
    requires forall n :: n in t.info && !t.info[n].inTried ==> t.info[n].refCount != 0
    requires forall n :: n in t.info ==> t.info[n].refCount <= NEW_BUCKETS_PER_ADDRESS
    ensures Passes(h, key, t')
  {
    forall n | n in t.info && !t.info[n].inTried ensures 1 <= t.info[n].refCount <= NEW_BUCKETS_PER_ADDRESS {
      RefsCounted(h, key, t, n);
    }
    hide Agree, NewOk, TriedOk, CountsOk;
    SanePasses(h, key, t);
    forall n | n in t.info ensures EntryPasses(t', n) {
      KnownAddress(h, key, t, n);
      assert EntryPasses(t, n);
    }
  }

  lemma KnownAddress(h: Hashes, key: Key, t: Tables, n: int)
    requires Agree(h, key, t, {}) && n in t.info
    ensures t.info[n].addr.ip in t.addr && t.addr[t.info[n].addr.ip] == n
  {
  }

  lemma RefsCounted(h: Hashes, key: Key, t: Tables, n: int)
    requires Agree(h, key, t, {}) && n in t.info
    ensures t.info[n].refCount >= 0
  {
  }

  /** An old entry that is left spoils the index of one table, or has no place in vRandom. */
  lemma EntryIsOdd(h: Hashes, key: Key, t: Tables, stale: Infos, b: int, c: int, ips: set<NetAddr>, n: int)
    requires Leftover(stale) && Stays(t.info, stale, b, c) && n in stale && !(b <= n < c) && b <= c
    requires Agree(h, key, Own(t, stale, b, c, ips), {})
    ensures !NewOk(h, key, t.info, t.news) || !TriedOk(h, key, t.info, t.tried) || !RandomPasses(t.info, t.random, n)
    ensures !Agree(h, key, t, {})
  {
    if n < b {
      PlaceIsSpoiled(h, key, t, stale, b, c, ips, n);
    } else {
      StrangerStays(h, key, t, stale, b, c, ips, n);
    }
  }

  /** An entry read into the place of an old one has references nobody gave it, or is in no tried slot. */
  lemma PlaceIsSpoiled(h: Hashes, key: Key, t: Tables, stale: Infos, b: int, c: int, ips: set<NetAddr>, n: int)
    requires Leftover(stale) && Stays(t.info, stale, b, c) && n in stale && n < b <= c
    requires Agree(h, key, Own(t, stale, b, c, ips), {})
    ensures !NewOk(h, key, t.info, t.news) || !TriedOk(h, key, t.info, t.tried)
  {
    var own := Own(t, stale, b, c, ips);
    assert n in own.info && own.info[n] == Adjusted(t.info[n], stale[n]);
    assert NewOk(h, key, own.info, t.news) && TriedOk(h, key, own.info, t.tried);
    hide Agree, RandomOk, AddrOk;
    if stale[n].refCount > 0 {
      assert own.info[n].refCount == |Refs(t.news, n)| != t.info[n].refCount;
    } else {
      assert t.info[n].inTried && !own.info[n].inTried;
      var s := TriedSlot(h, key, t.info[n].addr);
      assert s in t.tried ==> t.tried[s] != n;
    }
  }

  /** An old entry under a higher id has no place in vRandom. */
  lemma StrangerStays(h: Hashes, key: Key, t: Tables, stale: Infos, b: int, c: int, ips: set<NetAddr>, n: int)
    requires Stays(t.info, stale, b, c) && n in stale && n >= c
    requires Agree(h, key, Own(t, stale, b, c, ips), {})
    ensures n in t.info && !RandomPasses(t.info, t.random, n)
  {
    var own := Own(t, stale, b, c, ips);
    assert n in t.info && n !in own.info;
    assert RandomOk(own.info, t.random);
    hide Agree, AddrOk, NewOk, TriedOk;
    var pos := t.info[n].randomPos;
    assert 0 <= pos < |t.random| ==> t.random[pos] != n;
  }

  /** An old address that is not in the file leads to an entry that does not have it. */
  lemma AddressStays(h: Hashes, key: Key, t: Tables, stale: Infos, b: int, c: int, ips: set<NetAddr>)
    requires (forall n :: n in stale ==> b <= n < c) && ips <= t.addr.Keys && ips != {}
    requires Agree(h, key, Own(t, stale, b, c, ips), {})
    ensures !Agree(h, key, t, {})
  {
    var ip :| ip in ips;
    var own := Own(t, stale, b, c, ips);
    assert ip in t.addr;
    assert AddrOk(own.info, own.addr);
    hide Agree, RandomOk, NewOk, TriedOk;
    var n := t.addr[ip];
    assert n in t.info ==> n in own.info && own.info[n].addr == t.info[n].addr;
    assert n in t.info ==> t.info[n].addr.ip != ip;
    NotFound(h, key, t, ip);
  }

  lemma NotFound(h: Hashes, key: Key, t: Tables, ip: NetAddr)
    requires ip in t.addr && (t.addr[ip] in t.info ==> t.info[t.addr[ip]].addr.ip != ip)
    ensures !Agree(h, key, t, {})
  {
  }

  // ----- how each change of the tables looks without the old entries

  /** Reading the next new entry under the id `n`, into the place of an old one if there is one. */
  lemma OwnCreated(t: Tables, t': Tables, stale: Infos, n: int, i: Info, ips: set<NetAddr>)
    requires n == t.idCount && n !in OwnInfo(t.info, stale, n, n) && Stays(t.info, stale, n, n)
    requires n in t'.info && t'.info == t.info[n := t'.info[n]]
    requires if n in stale then Adjusted(t'.info[n], stale[n]) == i && t'.info[n].inTried == stale[n].inTried else t'.info[n] == i
    requires t' == t.(idCount := n + 1, info := t'.info, addr := t.addr[i.addr.ip := n], random := t.random + [n], nNew := t.nNew + 1)
    ensures Own(t', stale, n + 1, n + 1, ips - {i.addr.ip}) == Created(Own(t, stale, n, n, ips), i)
    ensures Stays(t'.info, stale, n + 1, n + 1)
  {
    var info, info' := OwnInfo(t.info, stale, n, n), OwnInfo(t'.info, stale, n + 1, n + 1);
    forall k ensures k in info'.Keys <==> k in info[n := i].Keys {}
    SameIds(info'.Keys, info[n := i].Keys);
    assert info' == info[n := i];
    assert t'.addr - (ips - {i.addr.ip}) == (t.addr - ips)[i.addr.ip := n];
  }

  /** Reading a tried entry under the id `c`, in place of an old one if there is one. */
  lemma OwnReplaced(t: Tables, t': Tables, stale: Infos, b: int, c: int, i: Info, ips: set<NetAddr>)
    requires b <= c && Stays(t.info, stale, b, c) && i.inTried
    requires t'.info == t.info[c := i] && t'.addr == t.addr[i.addr.ip := c]
    ensures OwnInfo(t'.info, stale, b, c + 1) == OwnInfo(t.info, stale, b, c)[c := i]
    ensures t'.addr - (ips - {i.addr.ip}) == (t.addr - ips)[i.addr.ip := c]
    ensures Stays(t'.info, stale, b, c + 1)
  {
    var info, info' := OwnInfo(t.info, stale, b, c), OwnInfo(t'.info, stale, b, c + 1);
    forall k ensures k in info'.Keys <==> k in info[c := i].Keys {}
    SameIds(info'.Keys, info[c := i].Keys);
    assert info' == info[c := i];
  }

  lemma OwnFilled(h: Hashes, key: Key, t: Tables, stale: Infos, b: int, c: int, ips: set<NetAddr>, n: int, bucket: nat)
    requires n in t.info && (n in stale ==> n < b <= c) && Stays(t.info, stale, b, c)
    ensures n in OwnInfo(t.info, stale, b, c)
    ensures Own(SlotFilled(h, key, t, n, bucket), stale, b, c, ips) == SlotFilled(h, key, Own(t, stale, b, c, ips), n, bucket)
    ensures Stays(SlotFilled(h, key, t, n, bucket).info, stale, b, c)
  {
    hide NewSlot;
    var own, own' := OwnInfo(t.info, stale, b, c), OwnInfo(SlotFilled(h, key, t, n, bucket).info, stale, b, c);
    var wanted := own[n := own[n].(refCount := own[n].refCount + 1)];
    forall k ensures k in own'.Keys <==> k in wanted.Keys {}
    SameIds(own'.Keys, wanted.Keys);
    assert own' == wanted;
  }

  /** Old entries are still tried or referenced, so they are not pruned. */
  lemma OldIsKept(info: Infos, stale: Infos, b: int, c: int, n: int)
    requires Leftover(stale) && Stays(info, stale, b, c) && n in stale && b <= c
    requires forall k :: k in OwnInfo(info, stale, b, c) ==> OwnInfo(info, stale, b, c)[k].refCount >= 0
    ensures n in info && (info[n].inTried || info[n].refCount != 0)
  {
    if n < b { assert OwnInfo(info, stale, b, c)[n] == Adjusted(info[n], stale[n]); }
  }

  lemma OwnMoved(info: Infos, stale: Infos, b: int, c: int, n: int, pos: int)
    requires n in OwnInfo(info, stale, b, c) && Stays(info, stale, b, c)
    ensures var own := OwnInfo(info, stale, b, c);
            OwnInfo(info[n := info[n].(randomPos := pos)], stale, b, c) == own[n := own[n].(randomPos := pos)]
    ensures Stays(info[n := info[n].(randomPos := pos)], stale, b, c)
  {
    var own, own' := OwnInfo(info, stale, b, c), OwnInfo(info[n := info[n].(randomPos := pos)], stale, b, c);
    var wanted := own[n := own[n].(randomPos := pos)];
    forall k ensures k in own'.Keys <==> k in wanted.Keys {}
    SameIds(own'.Keys, wanted.Keys);
    assert own' == wanted;
  }

  lemma OwnSwapped(t: Tables, stale: Infos, b: int, c: int, ips: set<NetAddr>, i: nat, j: nat)
    requires i < |t.random| && j < |t.random| && Stays(t.info, stale, b, c)
    requires t.random[i] in OwnInfo(t.info, stale, b, c) && t.random[j] in OwnInfo(t.info, stale, b, c)
    ensures t.random[i] in t.info && t.random[j] in t.info
    ensures Own(Swapped(t, i, j), stale, b, c, ips) == Swapped(Own(t, stale, b, c, ips), i, j)
    ensures Stays(Swapped(t, i, j).info, stale, b, c)
  {
    OwnInfoIn(t.info, stale, b, c, t.random[i]);
    OwnInfoIn(t.info, stale, b, c, t.random[j]);
    hide OwnInfo, Stays;
    if i != j {
      var x, y := t.random[i], t.random[j];
      OwnMoved(t.info, stale, b, c, x, j);
      OwnMoved(t.info[x := t.info[x].(randomPos := j)], stale, b, c, y, i);
    }
  }

  lemma OwnRemoved(t: Tables, stale: Infos, b: int, c: int, ips: set<NetAddr>, n: int)
    requires n in t.info && n !in stale && |t.random| > 0 && Stays(t.info, stale, b, c)
    ensures n in OwnInfo(t.info, stale, b, c)
    ensures Own(RemovedLast(t, n), stale, b, c, ips) == RemovedLast(Own(t, stale, b, c, ips), n)
    ensures Stays(RemovedLast(t, n).info, stale, b, c)
  {
    var own, own' := OwnInfo(t.info, stale, b, c), OwnInfo(t.info - {n}, stale, b, c);
    forall k ensures k in own'.Keys <==> k in (own - {n}).Keys {}
    SameIds(own'.Keys, (own - {n}).Keys);
    assert own' == own - {n};
    var ip := t.info[n].addr.ip;
    assert t.addr - {ip} - ips == t.addr - ips - {ip};
  }

  lemma OwnDeleted(h: Hashes, key: Key, t: Tables, stale: Infos, b: int, c: int, ips: set<NetAddr>, n: int)
    requires Stays(t.info, stale, b, c) && n in t.info && n !in stale && !t.info[n].inTried && t.info[n].refCount == 0
    requires Agree(h, key, Own(t, stale, b, c, ips), {}) && ips <= t.addr.Keys
    ensures n in OwnInfo(t.info, stale, b, c) && Deletable(t, n) && Deletable(Own(t, stale, b, c, ips), n)
    ensures Own(Deleted(t, n), stale, b, c, ips) == Deleted(Own(t, stale, b, c, ips), n)
    ensures Stays(Deleted(t, n).info, stale, b, c) && ips <= Deleted(t, n).addr.Keys
  {
    hide Agree, Swapped, RemovedLast, OwnInfo, Stays;
    var own := Own(t, stale, b, c, ips);
    OwnEntry(t.info, stale, b, c, n);
    OwnAddress(h, key, t, stale, b, c, ips, n);
    DeletedKeepsAgree(h, key, own, {}, n);
    var i, j := t.info[n].randomPos, |t.random| - 1;
    OwnSwapped(t, stale, b, c, ips, i, j);
    SwappedFrame(t, i, j, n);
    OwnRemoved(Swapped(t, i, j), stale, b, c, ips, n);
    RemovedFrame(Swapped(t, i, j), n);
  }

  lemma OwnEntry(info: Infos, stale: Infos, b: int, c: int, n: int)
    requires n in info && n !in stale
    ensures n in OwnInfo(info, stale, b, c) && OwnInfo(info, stale, b, c)[n] == info[n]
  {
  }

  lemma OwnAddress(h: Hashes, key: Key, t: Tables, stale: Infos, b: int, c: int, ips: set<NetAddr>, n: int)
    requires Agree(h, key, Own(t, stale, b, c, ips), {}) && n in t.info && n !in stale
    ensures t.info[n].addr.ip !in ips
  {
    OwnEntry(t.info, stale, b, c, n);
    var own := Own(t, stale, b, c, ips);
    assert own.info[n].addr.ip in own.addr;
  }

  lemma OwnInfoIn(info: Infos, stale: Infos, b: int, c: int, n: int)
    requires n in OwnInfo(info, stale, b, c)
    ensures n in info
  {
  }

  lemma SwappedFrame(t: Tables, i: nat, j: nat, n: int)
    requires i < |t.random| && j < |t.random| && t.random[i] in t.info && t.random[j] in t.info && n in t.info
    ensures n in Swapped(t, i, j).info && Swapped(t, i, j).info[n].addr == t.info[n].addr
    ensures Swapped(t, i, j).addr == t.addr && |Swapped(t, i, j).random| == |t.random|
  {
  }

  lemma RemovedFrame(t: Tables, n: int)
    requires n in t.info && |t.random| > 0
    ensures RemovedLast(t, n).addr == t.addr - {t.info[n].addr.ip}
  {
  }
}
