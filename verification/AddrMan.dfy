/** The address manager: entries, indexes and bucket tables updated in place. */
module AddrManager {
  import opened AddrTypes
  import Bits

  /** info' is info with only random positions changed. */
  ghost predicate OnlyPositions(info: map<Nid, Info>, info': map<Nid, Info>)
  {
    info'.Keys == info.Keys && forall id | id in info :: info'[id] == info[id].(randomPos := info'[id].randomPos)
  }

  /** Entries that stay keep the address they stand for. */
  ghost predicate ServicesKept(info: map<Nid, Info>, info': map<Nid, Info>)
  {
    forall id | id in info && id in info' :: info'[id].service == info[id].service
  }

  ghost predicate Keeps(count: Nid, info: map<Nid, Info>, tried: Table, count': Nid, info': map<Nid, Info>,
      tried': Table)
  {
    && count <= count' && ServicesKept(info, info') && tried.Keys <= tried'.Keys
    && (forall id | id in info' && id !in info :: count <= id)
  }

  lemma KeepsSame(count: Nid, info: map<Nid, Info>, tried: Table)
    ensures Keeps(count, info, tried, count, info, tried)
  {
  }

  lemma KeepsMore(count: Nid, info: map<Nid, Info>, tried: Table, count1: Nid, info1: map<Nid, Info>, tried1: Table,
      count2: Nid, info2: map<Nid, Info>, tried2: Table)
    requires Keeps(count, info, tried, count1, info1, tried1) && Keeps(count1, info1, tried1, count2, info2, tried2)
    requires IdsOk(info, count)
    ensures Keeps(count, info, tried, count2, info2, tried2)
  {
    forall id | id in info && id in info2 ensures info2[id].service == info[id].service {
      assert id in info1;
    }
  }

  /** The entries of info' are entries of info that changed at most their places in the tables and
      in the random order. */
  ghost predicate OnlyPlaces(info: map<Nid, Info>, info': map<Nid, Info>)
  {
    forall id | id in info' :: id in info && SameRecord(info[id], info'[id])
  }

  ghost predicate SameRecord(i: Info, i': Info)
  {
    i' == i.(inTried := i'.inTried, refCount := i'.refCount, randomPos := i'.randomPos)
  }

  lemma OnlyPlacesMore(info: map<Nid, Info>, info1: map<Nid, Info>, info2: map<Nid, Info>)
    requires OnlyPlaces(info, info1) && OnlyPlaces(info1, info2)
    ensures OnlyPlaces(info, info2)
  {
  }

  lemma WritePlaces(info: map<Nid, Info>, id: Nid, i: Info)
    requires id in info && SameRecord(info[id], i)
    ensures OnlyPlaces(info, info[id := i])
  {
  }

  lemma DeletePlaces(info: map<Nid, Info>, info': map<Nid, Info>, id: Nid)
    requires OnlyPositions(info - {id}, info')
    ensures OnlyPlaces(info, info')
  {
    forall x | x in info' ensures x in info && SameRecord(info[x], info'[x]) {
      assert x in info - {id};
    }
  }

  lemma PlacesServices(info: map<Nid, Info>, info': map<Nid, Info>)
    requires OnlyPlaces(info, info')
    ensures ServicesKept(info, info') && info'.Keys <= info.Keys
  {
    forall id | id in info'.Keys ensures id in info.Keys {
      assert id in info';
    }
  }

  lemma SlotPlaces(info: map<Nid, Info>, info': map<Nid, Info>, newTab: Table, s: Slot)
    requires s !in newTab ==> info' == info
    requires s in newTab ==> Cleared(info, info', newTab[s])
    ensures OnlyPlaces(info, info')
  {
  }

  lemma OnlyPositionsSame(info: map<Nid, Info>)
    ensures OnlyPositions(info, info)
  {
  }

  lemma OnlyPositionsMore(info: map<Nid, Info>, info1: map<Nid, Info>, info2: map<Nid, Info>)
    requires OnlyPositions(info, info1) && OnlyPositions(info1, info2)
    ensures OnlyPositions(info, info2)
  {
  }

  ghost predicate AllIn(info: map<Nid, Info>, ids: seq<Nid>)
  {
    forall i | 0 <= i < |ids| :: ids[i] in info
  }

  lemma RandomIn(info: map<Nid, Info>, random: seq<Nid>)
    requires RandomOk(info, random)
    ensures AllIn(info, random)
  {
  }

  lemma OnlyPositionsKeeps(env: Env, info: map<Nid, Info>, info': map<Nid, Info>, byAddr: map<NetAddr, Nid>, n: Nid)
    requires OnlyPositions(info, info')
    ensures SamePlaces(info, info')
    ensures StatsOk(env, info) ==> StatsOk(env, info')
    ensures AddrOk(info, byAddr) ==> AddrOk(info', byAddr)
    ensures IdsOk(info, n) ==> IdsOk(info', n)
  {
  }

  method SetSlot(a: array2<Nid>, b: nat, p: nat, id: Nid)
    requires b < a.Length0 && p < a.Length1
    modifies a
    ensures id >= 0 ==> TableOf(a) == old(TableOf(a))[Slot(b, p) := id]
    ensures id < 0 ==> TableOf(a) == old(TableOf(a)) - {Slot(b, p)}
  {
    a[b, p] := id;
    assert Slot(b, p) in Grid(a.Length0, a.Length1);
  }

  /** The slot's content, as the table abstraction sees it. */
  lemma SlotContent(a: array2<Nid>, b: nat, p: nat)
    requires b < a.Length0 && p < a.Length1
    ensures a[b, p] >= 0 <==> Slot(b, p) in TableOf(a)
    ensures a[b, p] >= 0 ==> TableOf(a)[Slot(b, p)] == a[b, p]
  {
    assert Slot(b, p) in Grid(a.Length0, a.Length1);
  }

  class AddrMan {
    const env: Env
    const asmap: seq<bool>
    var nKey: int
    var nIdCount: Nid
    var mapInfo: map<Nid, Info>
    var mapAddr: map<NetAddr, Nid>
    var vRandom: seq<Nid>
    var nTried: int
    const vvTried: array2<Nid>
    var nNew: int
    const vvNew: array2<Nid>
    var nLastGood: int
    var triedCollisions: set<Nid>

    ghost function Cfg(): Config
      reads this`nKey
    {
      Config(env, nKey, asmap)
    }

    ghost function NewTab(): Table
      reads vvNew
    {
      TableOf(vvNew)
    }

    ghost function TriedTab(): Table
      reads vvTried
    {
      TableOf(vvTried)
    }

    ghost predicate Shape()
    {
      && vvTried != vvNew
      && vvTried.Length0 == TRIED_BUCKET_COUNT && vvTried.Length1 == BUCKET_SIZE
      && vvNew.Length0 == NEW_BUCKET_COUNT && vvNew.Length1 == BUCKET_SIZE
    }

    ghost function View(): State
      reads this, vvTried, vvNew
    {
      State(nIdCount, mapInfo, mapAddr, vRandom, nTried, TriedTab(), nNew, NewTab())
    }

    /** Everything but the counters; entries in loose may have no reference. */
    ghost predicate Core(loose: set<Nid>)
      reads this`nKey, this`mapInfo, this`mapAddr, this`vRandom, this`nIdCount, vvTried, vvNew
    {
      && Shape() && nKey != 0
      && RandomOk(mapInfo, vRandom) && AddrOk(mapInfo, mapAddr) && IdsOk(mapInfo, nIdCount)
      && TablesOk(Cfg(), mapInfo, NewTab(), TriedTab(), loose) && StatsOk(env, mapInfo)
    }

    ghost function NewSurplus(): int
      reads this`mapInfo, this`nNew
    {
      |NewIds(mapInfo)| - nNew
    }

    ghost function TriedSurplus(): int
      reads this`mapInfo, this`nTried
    {
      |TriedIds(mapInfo)| - nTried
    }

    ghost predicate Valid()
      reads this`nKey, this`mapInfo, this`mapAddr, this`vRandom, this`nIdCount, this`nNew, this`nTried, vvTried, vvNew
    {
      Core({}) && NewSurplus() == 0 && TriedSurplus() == 0
    }

    /** The manager has an entry for exactly this address and port. */
    ghost predicate Known(service: Service)
      reads this
    {
      service.addr in mapAddr && mapAddr[service.addr] in mapInfo && mapInfo[mapAddr[service.addr]].service == service
    }

    /** What every operation short of Clear keeps: ids are never reused or re-addressed, and an
        occupied tried slot stays occupied. */
    twostate predicate Kept()
      reads this, vvTried
    {
      && nKey == old(nKey)
      && Keeps(old(nIdCount), old(mapInfo), old(TriedTab()), nIdCount, mapInfo, TriedTab())
    }

    /** Every pending collision that is still an entry has an occupied tried slot. */
    ghost predicate CollisionsOccupied()
      reads this, vvTried
    {
      forall id | id in triedCollisions ::
        id < nIdCount && (id in mapInfo ==> TriedSlot(Cfg(), mapInfo[id].service) in TriedTab())
    }

    method SwapRandom(pos1: nat, pos2: nat)
      requires RandomOk(mapInfo, vRandom)
      requires pos1 == pos2 || (pos1 < |vRandom| && pos2 < |vRandom|)
      modifies this`mapInfo, this`vRandom
      ensures RandomOk(mapInfo, vRandom) && OnlyPositions(old(mapInfo), mapInfo)
      ensures pos1 == pos2 ==> vRandom == old(vRandom)
      ensures pos1 != pos2 ==> vRandom == old(vRandom)[pos1 := old(vRandom)[pos2]][pos2 := old(vRandom)[pos1]]
    {
      if pos1 == pos2 {
        return;
      }
      var id1, id2 := vRandom[pos1], vRandom[pos2];
      assert id1 in mapInfo && id2 in mapInfo;
      mapInfo := mapInfo[id1 := mapInfo[id1].(randomPos := pos2)];
      mapInfo := mapInfo[id2 := mapInfo[id2].(randomPos := pos1)];
      vRandom := vRandom[pos1 := id2];
      vRandom := vRandom[pos2 := id1];
    }

    method Delete(id: Nid)
      requires RandomOk(mapInfo, vRandom)
      requires id in mapInfo && !mapInfo[id].inTried && mapInfo[id].refCount == 0
      modifies this`mapInfo, this`mapAddr, this`vRandom, this`nNew
      ensures RandomOk(mapInfo, vRandom)
      ensures OnlyPositions(old(mapInfo) - {id}, mapInfo)
      ensures mapAddr == old(mapAddr) - {old(mapInfo)[id].service.addr}
      ensures nNew == old(nNew) - 1
    {
      SwapRandom(mapInfo[id].randomPos, |vRandom| - 1);
      assert vRandom[|vRandom| - 1] == id;
      vRandom := vRandom[..|vRandom| - 1];
      mapAddr := mapAddr - {mapInfo[id].service.addr};
      mapInfo := mapInfo - {id};
      nNew := nNew - 1;
    }

    /** Empties one slot of the new table; an entry that loses its last reference is deleted. */
    method ClearNew(bucket: nat, pos: nat, ghost loose: set<Nid>)
      requires Core(loose) && bucket < NEW_BUCKET_COUNT && pos < BUCKET_SIZE
      modifies this`mapInfo, this`mapAddr, this`vRandom, this`nNew, vvNew
      ensures Core(loose) && NewSurplus() == old(NewSurplus()) && TriedIds(mapInfo) == old(TriedIds(mapInfo))
      ensures NewTab() == old(NewTab()) - {Slot(bucket, pos)}
      ensures Slot(bucket, pos) !in old(NewTab()) ==> mapInfo == old(mapInfo)
      ensures Slot(bucket, pos) in old(NewTab()) ==> Cleared(old(mapInfo), mapInfo, old(NewTab())[Slot(bucket, pos)])
    {
      hide TableOf, TablesOk, RandomOk, OnlyPositions, AddrOk, IdsOk, StatsOk, NewIds, TriedIds;
      ghost var s := Slot(bucket, pos);
      SlotContent(vvNew, bucket, pos);
      var id := vvNew[bucket, pos];
      if id >= 0 {
        ghost var c, info0, new0, tried0, addr0 := Cfg(), mapInfo, NewTab(), TriedTab(), mapAddr;
        ReferencedEntry(c, info0, new0, tried0, loose, s);
        assert mapInfo[id].refCount > 0;
        mapInfo := mapInfo[id := mapInfo[id].(refCount := mapInfo[id].refCount - 1)];
        RandomKept(info0, mapInfo, vRandom);
        if mapInfo[id].refCount == 0 {
          ghost var info1 := mapInfo;
          Delete(id);
          assert info1 - {id} == info0 - {id};
        }
        SetSlot(vvNew, bucket, pos, INVALID);
        ClearedTables(c, info0, mapInfo, new0, tried0, loose, s);
        ClearedRest(env, info0, mapInfo, addr0, nIdCount, id);
      } else {
        assert NewTab() - {s} == NewTab();
      }
    }

    /** Removes an entry from every new bucket, one reference at a time. */
    method RemoveFromNew(id: Nid)
      requires Core({}) && id in mapInfo && !mapInfo[id].inTried
      modifies this`mapInfo, vvNew
      ensures Core({id}) && NewIds(mapInfo) == old(NewIds(mapInfo)) && TriedIds(mapInfo) == old(TriedIds(mapInfo))
      ensures mapInfo == old(mapInfo)[id := old(mapInfo)[id].(refCount := 0)]
      ensures NewTab() == old(NewTab()) - SlotsOf(old(NewTab()), id)
    {
      hide TableOf, RandomOk, AddrOk, IdsOk, StatsOk, TablesOk, NewIds, TriedIds, BucketPosition;
      ghost var c, info0, new0, tried0 := Cfg(), mapInfo, NewTab(), TriedTab();
      LooserTables(c, info0, new0, tried0, {}, {id});
      AllBelow(c, info0, new0, tried0, id);
      assert new0 - SlotsBelow(new0, id, 0) == new0;
      for bucket := 0 to NEW_BUCKET_COUNT
        invariant id in mapInfo && mapInfo == info0[id := info0[id].(refCount := mapInfo[id].refCount)]
        invariant TablesOk(c, mapInfo, NewTab(), tried0, {id})
        invariant NewTab() == new0 - SlotsBelow(new0, id, bucket)
      {
        var pos := BucketPosition(Config(env, nKey, asmap), true, bucket, mapInfo[id].service);
        SlotContent(vvNew, bucket, pos);
        ghost var info1, new1 := mapInfo, NewTab();
        ghost var s := Slot(bucket, pos);
        BelowNext(c, info0, new0, tried0, id, bucket);
        IdInRange(info0, nIdCount, id);
        assert s in SlotsOf(new0, id) ==> s in new1 && new1[s] == id;
        if vvNew[bucket, pos] == id {
          assert new1[s] == id;
          DropReference(c, info1, new1, tried0, {id}, s);
          assert {id} + {id} == {id};
          SetSlot(vvNew, bucket, pos, INVALID);
          mapInfo := mapInfo[id := mapInfo[id].(refCount := mapInfo[id].refCount - 1)];
          assert NewTab() == new0 - SlotsBelow(new0, id, bucket + 1);
        }
      }
      NoSlotsLeft(c, mapInfo, new0, NewTab(), tried0, id);
      WriteKeeps(env, info0, id, mapInfo[id], vRandom, mapAddr, nIdCount);
      IdSetsKept(info0, mapInfo);
    }

    /** Moves the occupant of a tried slot back to its new bucket. */
    method EvictTried(bucket: nat, pos: nat, ghost id: Nid)
      requires Core({id}) && bucket < TRIED_BUCKET_COUNT && pos < BUCKET_SIZE
      requires Slot(bucket, pos) in TriedTab()
      requires id in mapInfo && !mapInfo[id].inTried && mapInfo[id].refCount == 0
      modifies this`mapInfo, this`mapAddr, this`vRandom, this`nNew, this`nTried, vvNew, vvTried
      ensures Core({id}) && NewSurplus() == old(NewSurplus()) && TriedSurplus() == old(TriedSurplus())
      ensures TriedTab() == old(TriedTab()) - {Slot(bucket, pos)}
      ensures id in mapInfo && mapInfo[id] == old(mapInfo)[id].(randomPos := mapInfo[id].randomPos)
      ensures mapInfo.Keys <= old(mapInfo).Keys && ServicesKept(old(mapInfo), mapInfo)
      ensures OnlyPlaces(old(mapInfo), mapInfo)
      ensures var evicted := old(TriedTab())[Slot(bucket, pos)];
              && evicted in mapInfo && !mapInfo[evicted].inTried && mapInfo[evicted].refCount == 1
              && var home := NewBucket(Cfg(), mapInfo[evicted].service, mapInfo[evicted].source);
              NewTab() == old(NewTab())[NewSlot(Cfg(), home, mapInfo[evicted].service) := evicted]
    {
      hide TableOf, Cleared, TriedSlot, RandomOk, AddrOk, IdsOk, StatsOk, TablesOk, NewIds, TriedIds, NewBucket,
        BucketPosition, OnlyPlaces, ServicesKept;
      ghost var s := Slot(bucket, pos);
      ghost var c, info0, tried0, new0 := Cfg(), mapInfo, TriedTab(), NewTab();
      SlotContent(vvTried, bucket, pos);
      var evicted := vvTried[bucket, pos];
      TriedOccupant(c, info0, new0, tried0, {id}, s);
      LeaveTried(c, info0, new0, tried0, {id}, s);
      mapInfo := mapInfo[evicted := mapInfo[evicted].(inTried := false)];
      SetSlot(vvTried, bucket, pos, INVALID);
      nTried := nTried - 1;
      ghost var info1 := mapInfo;
      WriteKeeps(env, info0, evicted, info1[evicted], vRandom, mapAddr, nIdCount);
      IdCounts(info0, evicted, info1[evicted]);
      assert {id} + {evicted} == {id, evicted};

      var cfg := Config(env, nKey, asmap);
      var home := NewBucket(cfg, mapInfo[evicted].service, mapInfo[evicted].source);
      var homePos := BucketPosition(cfg, true, home, mapInfo[evicted].service);
      ghost var t := Slot(home, homePos);
      LooseNotReferenced(c, info1, new0, TriedTab(), {id, evicted}, t);
      ClearNew(home, homePos, {id, evicted});
      SurvivesClear(info1, mapInfo, new0, t, id);
      SurvivesClear(info1, mapInfo, new0, t, evicted);
      SlotContent(vvNew, home, homePos);
      assert vvNew[home, homePos] < 0;

      ghost var info2, new2 := mapInfo, NewTab();
      AddReference(c, info2, new2, TriedTab(), {id, evicted}, t, evicted);
      IdInRange(info0, nIdCount, evicted);
      mapInfo := mapInfo[evicted := mapInfo[evicted].(refCount := 1)];
      SetSlot(vvNew, home, homePos, evicted);
      nNew := nNew + 1;
      WriteKeeps(env, info2, evicted, mapInfo[evicted], vRandom, mapAddr, nIdCount);
      IdCounts(info2, evicted, mapInfo[evicted]);
      assert {id, evicted} - {evicted} == {id};
      assert new0[t := evicted] == new2[t := evicted];
      SlotPlaces(info1, info2, new0, t);
      WritePlaces(info0, evicted, info1[evicted]);
      WritePlaces(info2, evicted, mapInfo[evicted]);
      OnlyPlacesMore(info0, info1, info2);
      OnlyPlacesMore(info0, info2, mapInfo);
      PlacesServices(info0, mapInfo);
    }

    /** Moves an entry from the new buckets to its tried slot, evicting the occupant. */
    method MakeTried(id: Nid)
      requires Valid() && id in mapInfo && !mapInfo[id].inTried && mapInfo[id].lastSuccess > 0
      modifies this`mapInfo, this`mapAddr, this`vRandom, this`nNew, this`nTried, vvNew, vvTried
      ensures Valid()
      ensures mapInfo.Keys <= old(mapInfo).Keys && ServicesKept(old(mapInfo), mapInfo) && id in mapInfo
      ensures OnlyPlaces(old(mapInfo), mapInfo)
      ensures mapInfo[id] == old(mapInfo)[id].(inTried := true, refCount := 0, randomPos := mapInfo[id].randomPos)
      ensures TriedTab() == old(TriedTab())[TriedSlot(Cfg(), mapInfo[id].service) := id]
      ensures var s, rest := TriedSlot(Cfg(), mapInfo[id].service), old(NewTab()) - SlotsOf(old(NewTab()), id);
              if s !in old(TriedTab()) then NewTab() == rest
              else
                var evicted := old(TriedTab())[s];
                && evicted in mapInfo && !mapInfo[evicted].inTried
                && var home := NewBucket(Cfg(), mapInfo[evicted].service, mapInfo[evicted].source);
                NewTab() == rest[NewSlot(Cfg(), home, mapInfo[evicted].service) := evicted]
    {
      hide TableOf, RandomOk, AddrOk, IdsOk, StatsOk, TablesOk, NewIds, TriedIds, TriedBucket, NewBucket,
        BucketPosition;
      RemoveFromNew(id);
      nNew := nNew - 1;
      assert mapInfo[id].refCount == 0;
      var cfg := Config(env, nKey, asmap);
      var bucket := TriedBucket(cfg, mapInfo[id].service);
      var pos := BucketPosition(cfg, false, bucket, mapInfo[id].service);
      ghost var s := Slot(bucket, pos);
      SlotContent(vvTried, bucket, pos);
      if vvTried[bucket, pos] >= 0 {
        EvictTried(bucket, pos, id);
      }
      SlotContent(vvTried, bucket, pos);
      assert vvTried[bucket, pos] < 0;
      ghost var info1, tried1 := mapInfo, TriedTab();
      EnterTried(cfg, info1, NewTab(), tried1, {id}, id);
      IdInRange(info1, nIdCount, id);
      SetSlot(vvTried, bucket, pos, id);
      nTried := nTried + 1;
      mapInfo := mapInfo[id := mapInfo[id].(inTried := true)];
      WriteKeeps(env, info1, id, mapInfo[id], vRandom, mapAddr, nIdCount);
      IdCounts(info1, id, mapInfo[id]);
      assert {id} - {id} == {};
      assert old(TriedTab())[s := id] == tried1[s := id];
    }

    /** Looks an address up, whatever its port. */
    method Find(a: NetAddr) returns (found: bool, id: Nid)
      requires AddrOk(mapInfo, mapAddr)
      ensures found <==> a in mapAddr
      ensures found ==> id == mapAddr[a] && id in mapInfo && mapInfo[id].service.addr == a
    {
      if a !in mapAddr {
        return false, INVALID;
      }
      id := mapAddr[a];
      found := id in mapInfo;
    }

    /** Replaces the statistics of an entry; its place in the tables stays. */
    method Touch(id: Nid, i: Info)
      requires Valid() && id in mapInfo
      requires i == mapInfo[id].(time := i.time, services := i.services, lastTry := i.lastTry,
                                 lastCountAttempt := i.lastCountAttempt, lastSuccess := i.lastSuccess,
                                 attempts := i.attempts)
      requires i.lastTry == mapInfo[id].lastTry || i.lastTry >= 0
      requires i.lastSuccess == mapInfo[id].lastSuccess || i.lastSuccess > 0
      modifies this`mapInfo
      ensures Valid() && mapInfo == old(mapInfo)[id := i]
    {
      hide TableOf, RandomOk, AddrOk, IdsOk, StatsOk, TablesOk, NewIds, TriedIds;
      WriteKeeps(env, mapInfo, id, i, vRandom, mapAddr, nIdCount);
      IdCounts(mapInfo, id, i);
      TablesFrame(Cfg(), mapInfo, mapInfo[id := i], NewTab(), TriedTab(), {});
      mapInfo := mapInfo[id := i];
    }

    /** Some new bucket that holds the entry, searched from a random start. */
    method FindNewBucket(id: Nid) returns (bucket: nat)
      requires Valid() && id in mapInfo && !mapInfo[id].inTried
      ensures bucket < NEW_BUCKET_COUNT
      ensures var s := NewSlot(Cfg(), bucket, mapInfo[id].service); s in NewTab() && NewTab()[s] == id
    {
      hide TableOf, RandomOk, AddrOk, IdsOk, StatsOk, TablesOk, NewIds, TriedIds, BucketPosition;
      var cfg := Config(env, nKey, asmap);
      ghost var w := SomeSlot(cfg, mapInfo, NewTab(), TriedTab(), id);
      var start := RandRange(NEW_BUCKET_COUNT);
      ghost var target := if w.bucket >= start then w.bucket - start else w.bucket + NEW_BUCKET_COUNT - start;
      var n := 0;
      while n < NEW_BUCKET_COUNT
        invariant 0 <= n <= target
      {
        bucket := (n + start) % NEW_BUCKET_COUNT;
        var pos := BucketPosition(cfg, true, bucket, mapInfo[id].service);
        SlotContent(vvNew, bucket, pos);
        if vvNew[bucket, pos] == id {
          IdInRange(mapInfo, nIdCount, id);
          return;
        }
        assert n == target ==> Slot(bucket, pos) == w;
        n := n + 1;
      }
      assert false;
    }

    method RandRange(n: nat) returns (r: nat)
      requires n > 0
      ensures r < n
    {
      r :| r < n;
    }

    /** The entry has left tried and is held by the new slot of its own source. */
    ghost predicate BackInNew(id: Nid)
      reads this, vvNew
    {
      && id in mapInfo && !mapInfo[id].inTried
      && var s := NewSlot(Cfg(), NewBucket(Cfg(), mapInfo[id].service, mapInfo[id].source), mapInfo[id].service);
      s in NewTab() && NewTab()[s] == id
    }

    /** Moves a reached entry to its tried slot, or records the collision to be tested first. */
    method Promote(id: Nid, testBeforeEvict: bool)
      requires Valid() && id in mapInfo && !mapInfo[id].inTried && mapInfo[id].lastSuccess > 0
      modifies this`mapInfo, this`mapAddr, this`vRandom, this`nNew, this`nTried, this`triedCollisions, vvNew, vvTried
      ensures Valid()
      ensures mapInfo.Keys <= old(mapInfo).Keys && ServicesKept(old(mapInfo), mapInfo) && id in mapInfo
      ensures OnlyPlaces(old(mapInfo), mapInfo)
      ensures var s := TriedSlot(Cfg(), mapInfo[id].service);
              if testBeforeEvict && s in old(TriedTab()) then
                && TriedTab() == old(TriedTab()) && NewTab() == old(NewTab())
                && triedCollisions == old(triedCollisions) +
                     (if |old(triedCollisions)| < TRIED_COLLISION_SIZE then {id} else {})
              else
                && TriedTab() == old(TriedTab())[s := id] && mapInfo[id].inTried
                && triedCollisions == old(triedCollisions)
                && (s in old(TriedTab()) ==> BackInNew(old(TriedTab())[s]))
    {
      hide TableOf, RandomOk, AddrOk, IdsOk, StatsOk, TablesOk, NewIds, TriedIds, TriedBucket, NewBucket,
        BucketPosition, SlotsOf;
      var _ := FindNewBucket(id);
      var cfg := Config(env, nKey, asmap);
      var bucket := TriedBucket(cfg, mapInfo[id].service);
      var pos := BucketPosition(cfg, false, bucket, mapInfo[id].service);
      SlotContent(vvTried, bucket, pos);
      if testBeforeEvict && vvTried[bucket, pos] >= 0 {
        if |triedCollisions| < TRIED_COLLISION_SIZE {
          triedCollisions := triedCollisions + {id};
        }
      } else {
        MakeTried(id);
      }
    }

    /** An entry was reached: update it and move it from new to tried, unless that would evict
        another entry that should be tested first. */
    method Good_(service: Service, testBeforeEvict: bool, time: int)
      requires Valid() && time > 0
      modifies this, vvNew, vvTried
      ensures Valid() && Kept() && nLastGood == time && nIdCount == old(nIdCount)
      ensures mapInfo.Keys <= old(mapInfo).Keys
      ensures old(CollisionsOccupied()) ==> CollisionsOccupied()
      ensures !old(Known(service)) ==>
                View() == old(View()) && triedCollisions == old(triedCollisions)
      ensures old(Known(service)) ==>
                var id, s := old(mapAddr)[service.addr], TriedSlot(Cfg(), service);
                && id in mapInfo
                && OnlyPlaces(old(mapInfo)[id := Reached(old(mapInfo)[id], time)], mapInfo)
                && if old(mapInfo)[id].inTried then
                     && TriedTab() == old(TriedTab()) && NewTab() == old(NewTab())
                     && triedCollisions == old(triedCollisions) && mapInfo[id].inTried
                   else if testBeforeEvict && s in old(TriedTab()) then
                     && TriedTab() == old(TriedTab()) && NewTab() == old(NewTab())
                     && triedCollisions == old(triedCollisions) +
                          (if |old(triedCollisions)| < TRIED_COLLISION_SIZE then {id} else {})
                   else
                     && TriedTab() == old(TriedTab())[s := id] && mapInfo[id].inTried
                     && triedCollisions == old(triedCollisions)
                     && (s in old(TriedTab()) ==> BackInNew(old(TriedTab())[s]))
    {
      hide TableOf, RandomOk, AddrOk, IdsOk, StatsOk, TablesOk, NewIds, TriedIds, TriedBucket, NewBucket,
        BucketPosition;
      nLastGood := time;
      var found, id := Find(service.addr);
      if !found {
        return;
      }
      if mapInfo[id].service != service {
        return;
      }
      Touch(id, mapInfo[id].(lastSuccess := time, lastTry := time, attempts := 0));
      if mapInfo[id].inTried {
        return;
      }
      IdInRange(mapInfo, nIdCount, id);
      Promote(id, testBeforeEvict);
    }

    /** Appends a new entry to the indexes; it has no reference yet. */
    method Create(a: Address, source: NetAddr) returns (id: Nid)
      requires Core({}) && a.service.addr !in mapAddr && env.IsRoutable(a.service.addr)
      modifies this`nIdCount, this`mapInfo, this`mapAddr, this`vRandom
      ensures Core({id}) && NewSurplus() == old(NewSurplus()) + 1 && TriedIds(mapInfo) == old(TriedIds(mapInfo))
      ensures id == old(nIdCount) && nIdCount == id + 1 && id !in old(mapInfo)
      ensures mapInfo == old(mapInfo)[id := NewInfo(a, source).(randomPos := |old(vRandom)|)]
      ensures mapAddr == old(mapAddr)[a.service.addr := id] && vRandom == old(vRandom) + [id]
    {
      hide TableOf, TablesOk, NewIds, TriedIds;
      id := nIdCount;
      nIdCount := nIdCount + 1;
      ghost var info0 := mapInfo;
      var i := NewInfo(a, source).(randomPos := |vRandom|);
      InsertEntry(Cfg(), info0, NewTab(), TriedTab(), {}, id, i);
      assert {} + {id} == {id};
      InsertCounts(info0, id, i);
      mapInfo := mapInfo[id := i];
      mapAddr := mapAddr[a.service.addr := id];
      vRandom := vRandom + [id];
    }

    /** Empties a new slot and gives it to the entry. */
    method InsertAt(id: Nid, bucket: nat, pos: nat)
      requires Core({id}) && bucket < NEW_BUCKET_COUNT && pos < BUCKET_SIZE
      requires id in mapInfo && !mapInfo[id].inTried && mapInfo[id].refCount < NEW_BUCKETS_PER_ADDRESS
      requires var s := Slot(bucket, pos);
               s == NewSlot(Cfg(), bucket, mapInfo[id].service) && (s in NewTab() ==> NewTab()[s] != id)
      modifies this`mapInfo, this`mapAddr, this`vRandom, this`nNew, vvNew
      ensures Core({}) && NewSurplus() == old(NewSurplus()) && TriedSurplus() == old(TriedSurplus())
      ensures id in mapInfo && OnlyPlaces(old(mapInfo), mapInfo)
      ensures NewTab() == old(NewTab())[Slot(bucket, pos) := id]
    {
      hide TableOf, RandomOk, AddrOk, IdsOk, StatsOk, TablesOk, NewIds, TriedIds, SlotsOf, OnlyPositions, Cleared,
        OnlyPlaces, ServicesKept, BucketPosition;
      ghost var s, info0, new0 := Slot(bucket, pos), mapInfo, NewTab();
      IdInRange(mapInfo, nIdCount, id);
      ClearNew(bucket, pos, {id});
      SurvivesClear(info0, mapInfo, new0, s, id);
      ghost var info1 := mapInfo;
      SlotPlaces(info0, info1, new0, s);
      AddReference(Cfg(), info1, NewTab(), TriedTab(), {id}, s, id);
      assert {id} - {id} == {};
      mapInfo := mapInfo[id := mapInfo[id].(refCount := mapInfo[id].refCount + 1)];
      SetSlot(vvNew, bucket, pos, id);
      WriteKeeps(env, info1, id, mapInfo[id], vRandom, mapAddr, nIdCount);
      IdCounts(info1, id, mapInfo[id]);
      WritePlaces(info1, id, mapInfo[id]);
      OnlyPlacesMore(info0, info1, mapInfo);
      assert NewTab() == new0[s := id];
    }

    /** Puts an entry into the new bucket its source selects, if the slot is free or its occupant
        may be displaced; an entry left without any reference is deleted. */
    method AddToBucket(id: Nid, source: NetAddr) returns (ghost now: int)
      requires Core({id}) && NewSurplus() == 0 && TriedSurplus() == 0
      requires id in mapInfo && !mapInfo[id].inTried && mapInfo[id].refCount < NEW_BUCKETS_PER_ADDRESS
      modifies this`mapInfo, this`mapAddr, this`vRandom, this`nNew, vvNew
      ensures Valid() && mapInfo.Keys <= old(mapInfo).Keys && ServicesKept(old(mapInfo), mapInfo)
      ensures OnlyPlaces(old(mapInfo), mapInfo)
      ensures var s := NewSlot(Cfg(), NewBucket(Cfg(), old(mapInfo)[id].service, source), old(mapInfo)[id].service);
              if MayTake(old(mapInfo), old(NewTab()), s, id, now) then
                id in mapInfo && NewTab() == old(NewTab())[s := id]
              else
                && NewTab() == old(NewTab()) && (id in mapInfo <==> old(mapInfo)[id].refCount > 0)
                && (id in mapInfo ==> mapInfo == old(mapInfo))
    {
      hide TableOf, RandomOk, AddrOk, IdsOk, StatsOk, TablesOk, NewIds, TriedIds, TriedBucket, NewBucket,
        BucketPosition, SlotsOf, OnlyPositions, Cleared, IsTerrible, OnlyPlaces, ServicesKept;
      now := 0;
      var cfg := Config(env, nKey, asmap);
      var bucket := NewBucket(cfg, mapInfo[id].service, source);
      var pos := BucketPosition(cfg, true, bucket, mapInfo[id].service);
      ghost var s, info0, new0 := Slot(bucket, pos), mapInfo, NewTab();
      SlotContent(vvNew, bucket, pos);
      IdInRange(mapInfo, nIdCount, id);
      assert {} + {id} == {id};
      if vvNew[bucket, pos] != id {
        var insert := vvNew[bucket, pos] < 0;
        if !insert {
          ReferencedEntry(cfg, mapInfo, NewTab(), TriedTab(), {id}, s);
          var existing := mapInfo[vvNew[bucket, pos]];
          var reading := AdjustedTime();
          now := reading;
          if IsTerrible(existing, reading) || (existing.refCount > 1 && mapInfo[id].refCount == 0) {
            insert := true;
          }
        }
        if insert {
          InsertAt(id, bucket, pos);
        } else if mapInfo[id].refCount == 0 {
          RemoveEntry(cfg, info0, new0, TriedTab(), {id}, id);
          Delete(id);
          DeletedTables(cfg, info0 - {id}, mapInfo, new0, TriedTab(), {id} - {id});
          DeletedRest(env, info0, mapInfo, old(mapAddr), nIdCount, id);
          DeletePlaces(info0, mapInfo, id);
          LooserTables(cfg, mapInfo, new0, TriedTab(), {id} - {id}, {});
        } else {
          TightenTables(cfg, info0, new0, TriedTab(), {}, id);
          WritePlaces(info0, id, info0[id]);
        }
      } else {
        ReferencedEntry(cfg, mapInfo, NewTab(), TriedTab(), {id}, s);
        TightenTables(cfg, info0, new0, TriedTab(), {}, id);
        WritePlaces(info0, id, info0[id]);
        assert new0[s := id] == new0;
      }
      assert info0[id := info0[id]] == info0;
      PlacesServices(info0, mapInfo);
    }

    /** Records an announced address. The result says whether it was unknown. The clock is read to
        refresh a known entry, and again to judge the occupant of a slot. */
    method Add_(a: Address, source: NetAddr, timePenalty: int)
        returns (isNew: bool, ghost now: int, ghost later: int, ghost draw: nat)
      requires Valid()
      modifies this, vvNew
      ensures Valid() && Kept()
      ensures isNew <==> env.IsRoutable(a.service.addr) && a.service.addr !in old(mapAddr)
      ensures nIdCount == old(nIdCount) + (if isNew then 1 else 0)
      ensures nLastGood == old(nLastGood) && triedCollisions == old(triedCollisions)
      ensures old(CollisionsOccupied()) ==> CollisionsOccupied()
      ensures !env.IsRoutable(a.service.addr) ==> View() == old(View())
      ensures var penalty := if a.service.addr == source then 0 else timePenalty;
              && (isNew ==> AddedNew(a, source, penalty, later))
              && (env.IsRoutable(a.service.addr) && !isNew ==>
                    AddedKnown(old(mapAddr)[a.service.addr], a, source, penalty, now, later, draw))
    {
      hide OnlyPlaces, TimeMoved, NothingToAdd, MayDisplace, MayTake, Core, TableOf, RandomOk, IdsOk, StatsOk, TablesOk,
        NewIds, TriedIds, TriedSlot, NewBucket, BucketPosition;
      isNew, now, later, draw := false, 0, 0, 0;
      if !env.IsRoutable(a.service.addr) {
        return;
      }
      CoreAddr();
      var found, id := Find(a.service.addr);
      var penalty := if a.service.addr == source then 0 else timePenalty;
      if found {
        now, later, draw := AddKnown(id, a, source, penalty);
      } else {
        later := AddUnknown(a, source, penalty);
        isNew := true;
      }
    }

    /** An unknown address got the next id. It stays exactly if it could take the slot its source
        selects; no other record changed. */
    twostate predicate AddedNew(a: Address, source: NetAddr, penalty: int, now: int)
      reads this, vvNew
    {
      var s, id := NewSlot(Cfg(), NewBucket(Cfg(), a.service, source), a.service), old(nIdCount);
      && var time := if a.time < penalty then 0 else a.time - penalty;
      && OnlyPlaces(old(mapInfo)[id := Info(a.service, time, a.services, source, 0, 0, 0, 0, 0, false, -1)], mapInfo)
      && if MayDisplace(old(mapInfo), old(NewTab()), s, now) then id in mapInfo && NewTab() == old(NewTab())[s := id]
         else id !in mapInfo && NewTab() == old(NewTab())
    }

    /** A known entry was refreshed: its time moved as it should and its services are those of both. If the
        announcement was news, the entry had room for a reference and the draw out of 2^references was 0, it also
        took the slot its source selects, where it could. No other record changed. */
    twostate predicate AddedKnown(id: Nid, a: Address, source: NetAddr, penalty: int, now: int, later: int, draw: nat)
      reads this, vvNew
    {
      && id in old(mapInfo) && id in mapInfo
      && var was, info := old(mapInfo)[id], mapInfo[id];
      && TimeMoved(was.time, a.time, penalty, now, info.time) && info.services == was.services + a.services
      && 0 <= was.refCount && draw < Bits.Pow2(was.refCount)
      && var i := was.(time := info.time, services := info.services);
      && OnlyPlaces(old(mapInfo)[id := i], mapInfo)
      && var s := NewSlot(Cfg(), NewBucket(Cfg(), i.service, source), i.service);
      if NothingToAdd(i, a) || draw != 0 || !MayTake(old(mapInfo)[id := i], old(NewTab()), s, id, later) then
        NewTab() == old(NewTab()) && mapInfo == old(mapInfo)[id := i]
      else
        NewTab() == old(NewTab())[s := id]
    }

    method AddKnown(id: Nid, a: Address, source: NetAddr, penalty: int)
        returns (ghost now: int, ghost later: int, ghost draw: nat)
      requires Valid() && id in mapInfo
      modifies this`mapInfo, this`mapAddr, this`vRandom, this`nNew, vvNew
      ensures Valid() && mapInfo.Keys <= old(mapInfo).Keys && ServicesKept(old(mapInfo), mapInfo)
      ensures AddedKnown(id, a, source, penalty, now, later, draw)
    {
      hide TableOf, RandomOk, AddrOk, StatsOk, TablesOk, NewIds, TriedIds, TriedSlot, NewBucket, BucketPosition,
        MayTake, TimeMoved, Bits.Pow2;
      RefCountNat(id);
      var reading := AdjustedTime();
      now, later := reading, 0;
      var skip;
      skip, draw := Refresh(id, a, penalty, reading);
      if !skip {
        RefCountBounds(id);
        LooserTables(Cfg(), mapInfo, NewTab(), TriedTab(), {}, {id});
        later := AddToBucket(id, source);
      }
    }

    method AddUnknown(a: Address, source: NetAddr, penalty: int) returns (ghost now: int)
      requires Valid() && a.service.addr !in mapAddr && env.IsRoutable(a.service.addr)
      modifies this`nIdCount, this`mapInfo, this`mapAddr, this`vRandom, this`nNew, vvNew
      ensures Valid() && mapInfo.Keys <= old(mapInfo).Keys + {old(nIdCount)} && ServicesKept(old(mapInfo), mapInfo)
      ensures nIdCount == old(nIdCount) + 1
      ensures AddedNew(a, source, penalty, now)
    {
      hide TableOf, RandomOk, AddrOk, StatsOk, TablesOk, NewIds, TriedIds, TriedSlot, NewBucket, BucketPosition,
        MayTake, MayDisplace;
      ghost var info0 := mapInfo;
      var id := Create(a, source);
      SetTimeLoose(id, mapInfo[id].(time := Max(0, mapInfo[id].time - penalty)));
      nNew := nNew + 1;
      ghost var info1, new1 := mapInfo, NewTab();
      now := AddToBucket(id, source);
      FreshMayTake(Cfg(), info0, info1, new1, old(TriedTab()),
        NewSlot(Cfg(), NewBucket(Cfg(), a.service, source), a.service), id, now);
    }

    /** Updates a known entry from an announcement; the result says whether nothing more is to be done. An entry
        with n references goes on with a chance of one in 2^n. */
    method Refresh(id: Nid, a: Address, penalty: int, now: int) returns (skip: bool, ghost draw: nat)
      requires Valid() && id in mapInfo
      modifies this`mapInfo
      ensures Valid() && mapInfo.Keys == old(mapInfo).Keys && ServicesKept(old(mapInfo), mapInfo)
      ensures !skip ==> !mapInfo[id].inTried && mapInfo[id].refCount < NEW_BUCKETS_PER_ADDRESS
      ensures mapInfo == old(mapInfo)[id := old(mapInfo)[id].(time := mapInfo[id].time,
                services := old(mapInfo)[id].services + a.services)]
      ensures TimeMoved(old(mapInfo)[id].time, a.time, penalty, now, mapInfo[id].time)
      ensures skip <==> NothingToAdd(mapInfo[id], a) || draw != 0
      ensures 0 <= mapInfo[id].refCount && draw < Bits.Pow2(mapInfo[id].refCount)
    {
      hide Core, TableOf, RandomOk, AddrOk, IdsOk, StatsOk, NewIds, TriedIds, Bits.Pow2;
      draw := 0;
      var i := mapInfo[id];
      RefCountNat(id);
      PowPositive(i.refCount);
      var currentlyOnline := now - a.time < 24 * 60 * 60;
      var updateInterval := if currentlyOnline then 60 * 60 else 24 * 60 * 60;
      if a.time != 0 && (i.time == 0 || i.time < a.time - updateInterval - penalty) {
        i := i.(time := Max(0, a.time - penalty));
      }
      i := i.(services := i.services + a.services);
      Touch(id, i);
      if a.time == 0 || (i.time != 0 && a.time <= i.time) {
        return true, 0;
      }
      if i.inTried {
        return true, 0;
      }
      if i.refCount == NEW_BUCKETS_PER_ADDRESS {
        return true, 0;
      }
      RefCountBounds(id);
      var factor := Doubled(i.refCount);
      Bits.Pow2Step(i.refCount - 1);
      var r := RandRange(factor);
      draw := r;
      return factor > 1 && r != 0, draw;
    }

    /** Two to the n, by doubling. */
    method Doubled(n: nat) returns (factor: nat)
      ensures factor == Bits.Pow2(n)
    {
      factor := 1;
      for k := 0 to n
        invariant factor == Bits.Pow2(k)
      {
        factor := factor * 2;
      }
    }

    lemma PowPositive(n: nat)
      ensures 0 < Bits.Pow2(n)
    {
    }

    lemma RefCountBounds(id: Nid)
      requires Valid() && id in mapInfo && !mapInfo[id].inTried
      ensures 1 <= mapInfo[id].refCount <= NEW_BUCKETS_PER_ADDRESS
    {
      assert EntryOk(Cfg(), mapInfo[id], id, NewTab(), TriedTab(), id in {});
    }

    lemma RefCountNat(id: Nid)
      requires Valid() && id in mapInfo
      ensures 0 <= mapInfo[id].refCount
    {
      assert EntryOk(Cfg(), mapInfo[id], id, NewTab(), TriedTab(), id in {});
    }

    /** The same as Touch for the entry being added, which has no reference yet. */
    method SetTimeLoose(id: Nid, i: Info)
      requires Core({id}) && id in mapInfo && i == mapInfo[id].(time := i.time)
      modifies this`mapInfo
      ensures Core({id}) && mapInfo == old(mapInfo)[id := i]
      ensures NewSurplus() == old(NewSurplus()) && TriedIds(mapInfo) == old(TriedIds(mapInfo))
    {
      hide TableOf, RandomOk, AddrOk, IdsOk, StatsOk, TablesOk, NewIds, TriedIds;
      WriteKeeps(env, mapInfo, id, i, vRandom, mapAddr, nIdCount);
      TablesFrame(Cfg(), mapInfo, mapInfo[id := i], NewTab(), TriedTab(), {id});
      mapInfo := mapInfo[id := i];
    }

    method Attempt_(service: Service, countFailure: bool, time: int)
      requires Valid() && time >= 0
      modifies this`mapInfo
      ensures Valid() && Kept() && (old(CollisionsOccupied()) ==> CollisionsOccupied())
      ensures !old(Known(service)) ==> mapInfo == old(mapInfo)
      ensures old(Known(service)) ==>
                var id := old(mapAddr)[service.addr];
                var counted := countFailure && old(mapInfo)[id].lastCountAttempt < nLastGood;
                mapInfo == old(mapInfo)[id := old(mapInfo)[id].(lastTry := time,
                  lastCountAttempt := if counted then time else old(mapInfo)[id].lastCountAttempt,
                  attempts := old(mapInfo)[id].attempts + (if counted then 1 else 0))]
    {
      hide Core, TableOf, RandomOk, IdsOk, StatsOk, NewIds, TriedIds, TriedSlot;
      CoreAddr();
      var found, id := Find(service.addr);
      if !found {
        return;
      }
      if mapInfo[id].service != service {
        return;
      }
      var i := mapInfo[id].(lastTry := time);
      if countFailure && i.lastCountAttempt < nLastGood {
        i := i.(lastCountAttempt := time, attempts := i.attempts + 1);
      }
      Touch(id, i);
    }

    lemma ValidIsInv()
      ensures Valid() <==> Shape() && Inv(Cfg(), View())
    {
      hide RandomOk, AddrOk, IdsOk, StatsOk, TablesOk, TableOf, NewIds, TriedIds;
    }

    lemma CoreAddr()
      requires Valid()
      ensures AddrOk(mapInfo, mapAddr)
    {
    }

    method Connected_(service: Service, time: int)
      requires Valid()
      modifies this`mapInfo
      ensures Valid() && Kept() && (old(CollisionsOccupied()) ==> CollisionsOccupied())
      ensures !old(Known(service)) ==> mapInfo == old(mapInfo)
      ensures old(Known(service)) ==>
                var id := old(mapAddr)[service.addr];
                mapInfo == old(mapInfo)[id := old(mapInfo)[id].(time :=
                  if time - old(mapInfo)[id].time > 20 * 60 then time else old(mapInfo)[id].time)]
    {
      hide Core, TableOf, RandomOk, IdsOk, StatsOk, NewIds, TriedIds, TriedSlot;
      CoreAddr();
      var found, id := Find(service.addr);
      if !found {
        return;
      }
      if mapInfo[id].service != service {
        return;
      }
      if time - mapInfo[id].time > 20 * 60 {
        Touch(id, mapInfo[id].(time := time));
      }
    }

    method SetServices_(service: Service, services: set<nat>)
      requires Valid()
      modifies this`mapInfo
      ensures Valid() && Kept() && (old(CollisionsOccupied()) ==> CollisionsOccupied())
      ensures !old(Known(service)) ==> mapInfo == old(mapInfo)
      ensures old(Known(service)) ==>
                var id := old(mapAddr)[service.addr];
                mapInfo == old(mapInfo)[id := old(mapInfo)[id].(services := services)]
    {
      hide Core, TableOf, RandomOk, IdsOk, StatsOk, NewIds, TriedIds, TriedSlot;
      CoreAddr();
      var found, id := Find(service.addr);
      if !found {
        return;
      }
      if mapInfo[id].service != service {
        return;
      }
      Touch(id, mapInfo[id].(services := services));
    }

    /** A random sample of entries worth passing on: the first n entries of the reshuffled order
        without the terrible ones, cut off at the size limit. The clock is read for each of them. */
    method GetAddr_(maxAddresses: nat, maxPct: nat) returns (r: seq<Address>, ghost nows: seq<int>)
      requires Valid()
      modifies this`mapInfo, this`vRandom
      ensures Valid() && Kept() && (old(CollisionsOccupied()) ==> CollisionsOccupied())
      ensures OnlyPositions(old(mapInfo), mapInfo) && multiset(vRandom) == multiset(old(vRandom))
      ensures |nows| <= |vRandom| && r == Gathered(mapInfo, vRandom[..|nows|], nows)
      ensures forall j, k | 0 <= j < k < |r| :: r[j].service.addr != r[k].service.addr
      ensures var limit := SampleLimit(|vRandom|, maxAddresses, maxPct);
              |r| <= limit && (|nows| < |vRandom| ==> |r| == limit)
    {
      hide TableOf, AddrOk, IdsOk, StatsOk, TablesOk, NewIds, TriedIds, TriedSlot, RandomOk, Gathered, SampleLimit;
      var nodes := SampleSize(|vRandom|, maxAddresses, maxPct);
      r, nows := Sample(nodes);
      RandomIn(mapInfo, vRandom);
      OnlyPositionsKeeps(env, old(mapInfo), mapInfo, mapAddr, nIdCount);
      SampleDistinct(mapInfo, mapAddr, vRandom, nows);
      TablesFrame(Cfg(), old(mapInfo), mapInfo, NewTab(), TriedTab(), {});
    }

    /** How many addresses to return at most. */
    method SampleSize(size: nat, maxAddresses: nat, maxPct: nat) returns (nodes: nat)
      ensures nodes == SampleLimit(size, maxAddresses, maxPct)
    {
      nodes := size;
      if maxPct != 0 {
        nodes := maxPct * nodes / 100;
      }
      if maxAddresses != 0 {
        nodes := if nodes < maxAddresses then nodes else maxAddresses;
      }
    }

    /** Shuffles while gathering until the sample is complete or the entries are used up. */
    method Sample(nodes: nat) returns (r: seq<Address>, ghost nows: seq<int>)
      requires RandomOk(mapInfo, vRandom)
      modifies this`mapInfo, this`vRandom
      ensures RandomOk(mapInfo, vRandom) && OnlyPositions(old(mapInfo), mapInfo)
      ensures multiset(vRandom) == multiset(old(vRandom)) && |vRandom| == old(|vRandom|) && AllIn(mapInfo, vRandom)
      ensures |nows| <= |vRandom| && r == Gathered(mapInfo, vRandom[..|nows|], nows)
      ensures |r| <= nodes && (|nows| < |vRandom| ==> |r| == nodes)
    {
      hide IsTerrible, OnlyPositions, RandomOk;
      r, nows := [], [];
      var k := 0;
      OnlyPositionsSame(mapInfo);
      RandomIn(mapInfo, vRandom);
      while k < |vRandom|
        invariant 0 <= k <= |vRandom| == old(|vRandom|)
        invariant RandomOk(mapInfo, vRandom) && OnlyPositions(old(mapInfo), mapInfo) && AllIn(mapInfo, vRandom)
        invariant multiset(vRandom) == multiset(old(vRandom))
        invariant |nows| == k && r == Gathered(mapInfo, vRandom[..k], nows) && |r| <= nodes
      {
        if |r| >= nodes {
          break;
        }
        ghost var info0, random0 := mapInfo, vRandom;
        ShuffleStep(k);
        OnlyPositionsMore(old(mapInfo), info0, mapInfo);
        RandomIn(mapInfo, vRandom);
        GatheredFrame(info0, mapInfo, random0[..k], nows);
        assert vRandom[..k + 1][..k] == random0[..k];
        var ai := mapInfo[vRandom[k]];
        var reading := AdjustedTime();
        assert (nows + [reading])[..k] == nows;
        nows := nows + [reading];
        if !IsTerrible(ai, reading) {
          r := r + [Address(ai.service, ai.time, ai.services)];
        }
        k := k + 1;
      }
    }

    /** One step of the shuffle: swaps position k with a random later one. */
    method ShuffleStep(k: nat)
      requires RandomOk(mapInfo, vRandom) && k < |vRandom|
      modifies this`mapInfo, this`vRandom
      ensures RandomOk(mapInfo, vRandom) && OnlyPositions(old(mapInfo), mapInfo)
      ensures |vRandom| == old(|vRandom|) && vRandom[..k] == old(vRandom)[..k]
      ensures multiset(vRandom) == multiset(old(vRandom))
    {
      hide RandomOk, OnlyPositions;
      var offset := RandRange(|vRandom| - k);
      SwapRandom(k, offset + k);
      SwapMultiset(old(vRandom), vRandom, k, offset + k);
    }

    /** Settles pending collisions: the new entry gives way, replaces the old one, or waits. No tried
        entry that connected within the last hours loses its slot, and an entry goes on waiting only
        for the slot of one that did not. */
    method ResolveCollisions_() returns (ghost adjustedTime: int)
      requires Valid()
      modifies this, vvNew, vvTried
      ensures Valid() && Kept() && (old(CollisionsOccupied()) ==> CollisionsOccupied())
      ensures mapInfo.Keys <= old(mapInfo).Keys && nIdCount == old(nIdCount)
      ensures triedCollisions <= old(triedCollisions)
      ensures RecentStay(old(TriedTab()), old(mapInfo), TriedTab(), mapInfo, adjustedTime)
      ensures forall id | id in triedCollisions :: MayWait(Cfg(), old(TriedTab()), old(mapInfo), adjustedTime, id)
    {
      hide Core, TableOf, TablesOk, AddrOk, TriedBucket, BucketPosition, RecentStay, MayWait, OnlyPlaces;
      var start := AdjustedTime();
      adjustedTime := start;
      var todo := triedCollisions;
      RecentStaySame(TriedTab(), mapInfo, start);
      while |todo| > 0
        invariant Valid() && Kept() && mapInfo.Keys <= old(mapInfo).Keys && nIdCount == old(nIdCount)
        invariant old(CollisionsOccupied()) ==> CollisionsOccupied()
        invariant todo <= triedCollisions <= old(triedCollisions)
        invariant RecentStay(old(TriedTab()), old(mapInfo), TriedTab(), mapInfo, start)
        invariant forall id | id in triedCollisions && id !in todo ::
                    MayWait(Cfg(), old(TriedTab()), old(mapInfo), start, id)
        decreases |todo|
      {
        var idNew := PickId(todo);
        todo := todo - {idNew};
        ghost var tried1, info1 := TriedTab(), mapInfo;
        ghost var now, goodTime;
        var resolved;
        resolved, now, goodTime := ResolveCollision(idNew, start);
        RecentStayMore(old(TriedTab()), old(mapInfo), tried1, info1, TriedTab(), mapInfo, start);
        if resolved {
          triedCollisions := triedCollisions - {idNew};
        } else {
          WaitedBefore(Cfg(), old(TriedTab()), old(mapInfo), tried1, info1, start, idNew);
        }
      }
    }

    /** The entry now holds its tried slot as one reached at that time; an occupant it displaced is
        back in its new slot, and no other record changed. */
    twostate predicate TookSlot(id: Nid, time: int)
      reads this, vvTried, vvNew
    {
      && id in old(mapInfo) && id in mapInfo && mapInfo[id].inTried
      && OnlyPlaces(old(mapInfo)[id := Reached(old(mapInfo)[id], time)], mapInfo)
      && var s := TriedSlot(Cfg(), old(mapInfo)[id].service);
      && TriedTab() == old(TriedTab())[s := id]
      && (s in old(TriedTab()) && old(TriedTab())[s] != id ==> BackInNew(old(TriedTab())[s]))
    }

    /** Settles one pending collision; the result says whether it is settled. The clock is read
        again, as now and then as goodTime, where the source does. */
    method ResolveCollision(idNew: Nid, adjustedTime: int)
        returns (resolved: bool, ghost now: int, ghost goodTime: int)
      requires Valid() && adjustedTime > 0
      modifies this, vvNew, vvTried
      ensures Valid() && Kept() && (old(CollisionsOccupied()) ==> CollisionsOccupied())
      ensures mapInfo.Keys <= old(mapInfo).Keys && nIdCount == old(nIdCount) && triedCollisions == old(triedCollisions)
      ensures !resolved ==> View() == old(View()) && MayWait(Cfg(), TriedTab(), mapInfo, adjustedTime, idNew)
      ensures idNew !in old(mapInfo) || !env.isValid(old(mapInfo)[idNew].service.addr) ==>
                resolved && View() == old(View())
      ensures idNew in old(mapInfo) && env.isValid(old(mapInfo)[idNew].service.addr) ==>
                var i := old(mapInfo)[idNew];
                var s := TriedSlot(Cfg(), i.service);
                if s !in old(TriedTab()) then
                  resolved && TookSlot(idNew, adjustedTime)
                else
                  var occupant := old(mapInfo)[old(TriedTab())[s]];
                  if adjustedTime - occupant.lastSuccess < REPLACEMENT_SECONDS then
                    resolved && View() == old(View())
                  else
                    && (resolved <==>
                          if adjustedTime - occupant.lastTry < REPLACEMENT_SECONDS then now - occupant.lastTry > 60
                          else now - i.lastSuccess > TEST_WINDOW)
                    && (resolved ==> TookSlot(idNew, goodTime))
      ensures RecentStay(old(TriedTab()), old(mapInfo), TriedTab(), mapInfo, adjustedTime)
    {
      hide Core, TableOf, TablesOk, TriedBucket, BucketPosition, RecentStay, OnlyPlaces, NewBucket;
      resolved, now, goodTime := false, 0, 0;
      RecentStaySame(TriedTab(), mapInfo, adjustedTime);
      if idNew !in mapInfo {
        return true, now, goodTime;
      }
      CoreAddr();
      var cfg := Config(env, nKey, asmap);
      var infoNew := mapInfo[idNew];
      var bucket := TriedBucket(cfg, infoNew.service);
      var pos := BucketPosition(cfg, false, bucket, infoNew.service);
      ShapeOf();
      SlotContent(vvTried, bucket, pos);
      assert Known(infoNew.service);
      if !env.isValid(infoNew.service.addr) {
        resolved := true;
      } else if vvTried[bucket, pos] >= 0 {
        OccupantKnown(Slot(bucket, pos));
        var infoOld := mapInfo[vvTried[bucket, pos]];
        if adjustedTime - infoOld.lastSuccess < REPLACEMENT_SECONDS {
          resolved := true;
        } else if adjustedTime - infoOld.lastTry < REPLACEMENT_SECONDS {
          var reading := AdjustedTime();
          now := reading;
          if reading - infoOld.lastTry > 60 {
            var time := AdjustedTime();
            goodTime := time;
            TakeSlot(idNew, time, adjustedTime);
            resolved := true;
          }
        } else {
          var reading := AdjustedTime();
          now := reading;
          if reading - infoNew.lastSuccess > TEST_WINDOW {
            var time := AdjustedTime();
            goodTime := time;
            TakeSlot(idNew, time, adjustedTime);
            resolved := true;
          }
        }
      } else {
        TakeSlot(idNew, adjustedTime, adjustedTime);
        resolved := true;
      }
    }

    /** Marks the entry as reached without testing the occupant of its tried slot. */
    method TakeSlot(id: Nid, time: int, ghost adjustedTime: int)
      requires Valid() && id in mapInfo && time > 0
      requires var s := TriedSlot(Cfg(), mapInfo[id].service);
               s in TriedTab() && TriedTab()[s] in mapInfo ==>
                 adjustedTime - mapInfo[TriedTab()[s]].lastSuccess >= REPLACEMENT_SECONDS
      modifies this, vvNew, vvTried
      ensures Valid() && Kept() && (old(CollisionsOccupied()) ==> CollisionsOccupied())
      ensures mapInfo.Keys <= old(mapInfo).Keys && nIdCount == old(nIdCount) && triedCollisions == old(triedCollisions)
      ensures TookSlot(id, time)
      ensures RecentStay(old(TriedTab()), old(mapInfo), TriedTab(), mapInfo, adjustedTime)
    {
      hide Core, TableOf, TablesOk, TriedBucket, BucketPosition, RecentStay, OnlyPlaces, NewBucket;
      CoreAddr();
      assert Known(mapInfo[id].service);
      ghost var c, tried0, info0, new0 := Cfg(), TriedTab(), mapInfo, NewTab();
      OwnSlot(id);
      Good_(mapInfo[id].service, false, time);
      ValidTables();
      OthersStay(c, tried0, info0, new0, TriedTab(), mapInfo, NewTab(), id, time, adjustedTime);
    }

    lemma ValidTables()
      requires Valid()
      ensures TablesOk(Cfg(), mapInfo, NewTab(), TriedTab(), {})
    {
    }

    /** A tried entry holds its own slot. */
    lemma OwnSlot(id: Nid)
      requires Valid() && id in mapInfo
      ensures TablesOk(Cfg(), mapInfo, NewTab(), TriedTab(), {})
      ensures var s := TriedSlot(Cfg(), mapInfo[id].service);
              mapInfo[id].inTried ==> s in TriedTab() && TriedTab()[s] == id && TriedTab()[s := id] == TriedTab()
    {
      assert EntryOk(Cfg(), mapInfo[id], id, NewTab(), TriedTab(), id in {});
    }

    lemma ShapeOf()
      requires Valid()
      ensures Shape()
    {
    }

    lemma OccupantKnown(s: Slot)
      requires Valid() && s in TriedTab()
      ensures TriedTab()[s] in mapInfo && mapInfo[TriedTab()[s]].inTried
    {
      TriedOccupant(Cfg(), mapInfo, NewTab(), TriedTab(), {}, s);
    }

    /** The clock; it is taken to be past the epoch. */
    method AdjustedTime() returns (t: int)
      ensures t > 0
    {
      t :| t > 0;
    }

    /** Picks a pending collision and returns the tried entry it would evict. A default entry is
        written to the table exactly when the pending id is an entry whose tried slot is empty. */
    method SelectTriedCollision_() returns (r: Info, ghost picked: Nid)
      requires Valid()
      modifies this`mapInfo, this`triedCollisions
      ensures old(triedCollisions) == {} ==> r == EmptyInfo() && mapInfo == old(mapInfo) && triedCollisions == {}
      ensures old(triedCollisions) != {} ==> picked in old(triedCollisions)
      ensures old(triedCollisions) != {} && picked !in old(mapInfo) ==>
                r == EmptyInfo() && mapInfo == old(mapInfo) && triedCollisions == old(triedCollisions) - {picked}
      ensures old(triedCollisions) != {} && picked in old(mapInfo) ==>
                var s := TriedSlot(Cfg(), old(mapInfo)[picked].service);
                && triedCollisions == old(triedCollisions)
                && (mapInfo == old(mapInfo) <==> s in TriedTab())
                && (s in TriedTab() ==> TriedTab()[s] in mapInfo && r == mapInfo[TriedTab()[s]])
                && (s !in TriedTab() ==>
                      var empty := vvTried[s.bucket, s.pos];
                      empty < 0 && r == EmptyInfo() && mapInfo == old(mapInfo)[empty := EmptyInfo()])
      ensures old(CollisionsOccupied()) ==> Valid() && CollisionsOccupied() && mapInfo == old(mapInfo)
    {
      hide TableOf, TablesOk, TriedBucket, BucketPosition, RandomOk, AddrOk, StatsOk;
      if |triedCollisions| == 0 {
        return EmptyInfo(), INVALID;
      }
      var idNew := PickId(triedCollisions);
      picked := idNew;
      if idNew !in mapInfo {
        triedCollisions := triedCollisions - {idNew};
        return EmptyInfo(), picked;
      }
      var cfg := Config(env, nKey, asmap);
      var bucket := TriedBucket(cfg, mapInfo[idNew].service);
      var pos := BucketPosition(cfg, false, bucket, mapInfo[idNew].service);
      SlotContent(vvTried, bucket, pos);
      var idOld := vvTried[bucket, pos];
      if idOld >= 0 {
        OccupantKnown(Slot(bucket, pos));
      }
      if idOld !in mapInfo {
        mapInfo := mapInfo[idOld := EmptyInfo()];
      }
      r := mapInfo[idOld];
    }

    /** Empties the tables and indexes under a new key. Pending collisions are not dropped. */
    method Clear(key: int)
      requires Shape() && key != 0
      modifies this`vRandom, this`nKey, this`nIdCount, this`nTried, this`nNew, this`nLastGood, this`mapInfo,
        this`mapAddr, vvNew, vvTried
      ensures Valid() && nKey == key && nLastGood == 1
      ensures View() == State(0, map[], map[], [], 0, map[], 0, map[])
    {
      hide TableOf, TablesOk, NewIds, TriedIds;
      vRandom, nKey := [], key;
      ClearTable(vvNew);
      ClearTable(vvTried);
      nIdCount, nTried, nNew, nLastGood := 0, 0, 0, 1;
      mapInfo, mapAddr := map[], map[];
      EmptyTables(Cfg());
    }

    constructor (env: Env, asmap: seq<bool>, key: int)
      requires key != 0
      ensures Valid() && View() == State(0, map[], map[], [], 0, map[], 0, map[])
      ensures nKey == key && triedCollisions == {} && CollisionsOccupied()
      ensures fresh(vvNew) && fresh(vvTried) && this.env == env && this.asmap == asmap
    {
      this.env, this.asmap := env, asmap;
      vvTried := new Nid[TRIED_BUCKET_COUNT, BUCKET_SIZE];
      vvNew := new Nid[NEW_BUCKET_COUNT, BUCKET_SIZE];
      triedCollisions := {};
      new;
      Clear(key);
    }
  }

  lemma EmptyTables(c: Config)
    ensures TablesOk(c, map[], map[], map[], {}) && NewIds(map[]) == {} && TriedIds(map[]) == {}
  {
  }

  method ClearTable(a: array2<Nid>)
    modifies a
    ensures TableOf(a) == map[]
  {
    for b := 0 to a.Length0
      invariant forall i, j | 0 <= i < b && 0 <= j < a.Length1 :: a[i, j] == INVALID
    {
      for p := 0 to a.Length1
        invariant forall i, j | 0 <= i < b && 0 <= j < a.Length1 :: a[i, j] == INVALID
        invariant forall j | 0 <= j < p :: a[b, j] == INVALID
      {
        a[b, p] := INVALID;
      }
    }
  }

  /** Tried entries that connected within the last hours keep their slots and records. */
  ghost predicate RecentStay(tried: Table, info: map<Nid, Info>, tried': Table, info': map<Nid, Info>, time: int)
  {
    forall s | s in tried && tried[s] in info && time - info[tried[s]].lastSuccess < REPLACEMENT_SECONDS ::
      && s in tried' && tried'[s] == tried[s]
      && tried[s] in info' && SameRecord(info[tried[s]], info'[tried[s]])
  }

  /** A pending entry that may go on waiting: it is valid, and the occupant of its tried slot did
      not connect within the last hours. */
  ghost predicate MayWait(c: Config, tried: Table, info: map<Nid, Info>, time: int, id: Nid)
  {
    && id in info && c.env.isValid(info[id].service.addr)
    && var s := TriedSlot(c, info[id].service);
    s in tried && tried[s] in info ==> time - info[tried[s]].lastSuccess >= REPLACEMENT_SECONDS
  }

  lemma RecentStaySame(tried: Table, info: map<Nid, Info>, time: int)
    ensures RecentStay(tried, info, tried, info, time)
  {
  }

  lemma RecentStayMore(tried: Table, info: map<Nid, Info>, tried1: Table, info1: map<Nid, Info>, tried2: Table,
      info2: map<Nid, Info>, time: int)
    requires RecentStay(tried, info, tried1, info1, time) && RecentStay(tried1, info1, tried2, info2, time)
    ensures RecentStay(tried, info, tried2, info2, time)
  {
    forall s | s in tried && tried[s] in info && time - info[tried[s]].lastSuccess < REPLACEMENT_SECONDS
      ensures
        && s in tried2 && tried2[s] == tried[s]
        && tried[s] in info2 && SameRecord(info[tried[s]], info2[tried[s]])
    {
      assert s in tried1 && tried1[s] == tried[s];
    }
  }

  /** An entry that may wait after part of the pass might do so at its start. */
  lemma WaitedBefore(c: Config, tried: Table, info: map<Nid, Info>, tried1: Table, info1: map<Nid, Info>, time: int,
      id: Nid)
    requires RecentStay(tried, info, tried1, info1, time) && ServicesKept(info, info1) && id in info
    requires MayWait(c, tried1, info1, time, id)
    ensures MayWait(c, tried, info, time, id)
  {
    hide TriedSlot;
  }

  /** A tried entry that recently connected holds a slot of its own, so taking another one leaves it. */
  lemma OthersStay(c: Config, tried: Table, info: map<Nid, Info>, newTab: Table, tried': Table, info': map<Nid, Info>,
      newTab': Table, id: Nid, goodTime: int, time: int)
    requires TablesOk(c, info, newTab, tried, {}) && TablesOk(c, info', newTab', tried', {})
    requires id in info && OnlyPlaces(info[id := Reached(info[id], goodTime)], info')
    requires tried' == tried[TriedSlot(c, info[id].service) := id]
    requires
      var s := TriedSlot(c, info[id].service);
      s in tried && tried[s] in info ==> time - info[tried[s]].lastSuccess >= REPLACEMENT_SECONDS
    ensures RecentStay(tried, info, tried', info', time)
  {
    hide TablesOk, TriedSlot;
    forall s | s in tried && tried[s] in info && time - info[tried[s]].lastSuccess < REPLACEMENT_SECONDS
      ensures
        && s in tried' && tried'[s] == tried[s]
        && tried[s] in info' && SameRecord(info[tried[s]], info'[tried[s]])
    {
      TriedOccupant(c, info, newTab, tried, {}, s);
      TriedOccupant(c, info', newTab', tried', {}, s);
    }
  }

  /** How an announcement moves the time of a known entry. A missing time is taken from any announcement that has
      one. Another moves, and never back, exactly if the announced time less the penalty is ahead of it by more
      than an hour, for an announcement less than a day old, or by more than a day. */
  ghost predicate TimeMoved(was: int, announced: int, penalty: int, now: int, time: int)
  {
    var late := announced - penalty;
    && (announced == 0 ==> time == was)
    && (announced != 0 && was == 0 ==> time == if late < 0 then 0 else late)
    && (announced != 0 && was != 0 ==>
          && was <= time
          && (was < time <==> late > was + 86400 || (late > was + 3600 && now < announced + 86400))
          && (was < time ==> time == if late < 0 then 0 else late))
  }

  /** The announcement is no news for the refreshed entry, which is tried or has all its references. */
  ghost predicate NothingToAdd(i: Info, a: Address)
  {
    a.time == 0 || (i.time != 0 && a.time <= i.time) || i.inTried || i.refCount == 8
  }

  /** An entry without references may take the slot. */
  ghost predicate MayDisplace(info: map<Nid, Info>, newTab: Table, s: Slot, now: int)
  {
    s in newTab && newTab[s] in info ==> IsTerrible(info[newTab[s]], now) || info[newTab[s]].refCount > 1
  }

  lemma FreshMayTake(c: Config, info: map<Nid, Info>, info': map<Nid, Info>, newTab: Table, triedTab: Table, s: Slot,
      id: Nid, now: int)
    requires TablesOk(c, info, newTab, triedTab, {}) && id !in info
    requires id in info' && info'[id].refCount == 0 && info' == info[id := info'[id]]
    ensures MayTake(info', newTab, s, id, now) <==> MayDisplace(info, newTab, s, now)
  {
    hide IsTerrible, EntryOk, NewSlot, TriedSlotOk;
    if s in newTab {
      assert FreshSlotOk(c, info, s, newTab[s]);
    }
  }

  /** The entry after a successful connection. */
  ghost function Reached(i: Info, time: int): Info
  {
    i.(lastSuccess := time, lastTry := time, attempts := 0)
  }

  ghost function SampleLimit(size: nat, maxAddresses: nat, maxPct: nat): nat
  {
    var share := if maxPct != 0 then maxPct * size / 100 else size;
    if maxAddresses != 0 && maxAddresses < share then maxAddresses else share
  }

  /** The addresses of the entries that are not terrible at their time of asking, in order. */
  ghost function Gathered(info: map<Nid, Info>, ids: seq<Nid>, nows: seq<int>): seq<Address>
    requires |nows| == |ids| && forall i | 0 <= i < |ids| :: ids[i] in info
  {
    if ids == [] then []
    else
      var n := |ids| - 1;
      var i := info[ids[n]];
      Gathered(info, ids[..n], nows[..n])
      + (if IsTerrible(i, nows[n]) then [] else [Address(i.service, i.time, i.services)])
  }

  lemma {:induction false} GatheredFrame(info: map<Nid, Info>, info': map<Nid, Info>, ids: seq<Nid>, nows: seq<int>)
    requires OnlyPositions(info, info') && |nows| == |ids|
    requires forall i | 0 <= i < |ids| :: ids[i] in info
    ensures Gathered(info', ids, nows) == Gathered(info, ids, nows)
  {
    if ids != [] {
      var n := |ids| - 1;
      var last := ids[n];
      assert info'[last] == info[last].(randomPos := info'[last].randomPos);
      GatheredFrame(info, info', ids[..n], nows[..n]);
    }
  }

  /** Every gathered address belongs to one of the ids that was not terrible. */
  lemma {:induction false} GatheredFrom(info: map<Nid, Info>, ids: seq<Nid>, nows: seq<int>, k: nat) returns (i: nat)
    requires |nows| == |ids| && forall i | 0 <= i < |ids| :: ids[i] in info
    requires k < |Gathered(info, ids, nows)|
    ensures i < |ids| && !IsTerrible(info[ids[i]], nows[i])
    ensures Gathered(info, ids, nows)[k].service == info[ids[i]].service
  {
    var n := |ids| - 1;
    if k < |Gathered(info, ids[..n], nows[..n])| {
      i := GatheredFrom(info, ids[..n], nows[..n], k);
    } else {
      i := n;
    }
  }

  /** A sample never repeats an address. */
  lemma {:induction false} GatheredDistinct(info: map<Nid, Info>, byAddr: map<NetAddr, Nid>, ids: seq<Nid>,
      nows: seq<int>, j: nat, k: nat)
    requires AddrOk(info, byAddr) && |nows| == |ids|
    requires forall i | 0 <= i < |ids| :: ids[i] in info
    requires forall i, i' | 0 <= i < i' < |ids| :: ids[i] != ids[i']
    requires j < k < |Gathered(info, ids, nows)|
    ensures Gathered(info, ids, nows)[j].service.addr != Gathered(info, ids, nows)[k].service.addr
  {
    var n := |ids| - 1;
    if k < |Gathered(info, ids[..n], nows[..n])| {
      GatheredDistinct(info, byAddr, ids[..n], nows[..n], j, k);
    } else {
      var i := GatheredFrom(info, ids[..n], nows[..n], j);
      assert ids[i] != ids[n];
    }
  }

  /** The same for what is gathered from the first entries of the random order. */
  lemma SampleDistinct(info: map<Nid, Info>, byAddr: map<NetAddr, Nid>, random: seq<Nid>, nows: seq<int>)
    requires RandomOk(info, random) && AddrOk(info, byAddr) && |nows| <= |random|
    ensures var r := Gathered(info, random[..|nows|], nows);
            forall j, k | 0 <= j < k < |r| :: r[j].service.addr != r[k].service.addr
  {
    hide AddrOk, IsTerrible;
    var ids := random[..|nows|];
    forall i, i' | 0 <= i < i' < |ids| ensures ids[i] != ids[i'] {
      assert info[random[i]].randomPos == i && info[random[i']].randomPos == i';
    }
    forall j, k | 0 <= j < k < |Gathered(info, ids, nows)|
      ensures Gathered(info, ids, nows)[j].service.addr != Gathered(info, ids, nows)[k].service.addr
    {
      GatheredDistinct(info, byAddr, ids, nows, j, k);
    }
  }

  lemma SwapMultiset(s: seq<Nid>, t: seq<Nid>, i: nat, j: nat)
    requires i < |s| && j < |s|
    requires t == if i == j then s else s[i := s[j]][j := s[i]]
    ensures multiset(t) == multiset(s)
  {
  }

  method PickId(ids: set<Nid>) returns (id: Nid)
    requires |ids| > 0
    ensures id in ids
  {
    assert (forall x :: x !in ids) ==> ids == {};
    id :| id in ids;
  }

  function Max(x: int, y: int): int
  {
    if x < y then y else x
  }

  /** The slot is empty, already the entry's own, or held by an entry that may be displaced. */
  ghost predicate MayTake(info: map<Nid, Info>, newTab: Table, s: Slot, id: Nid, now: int)
  {
    s in newTab ==>
      || newTab[s] == id
      || newTab[s] !in info || id !in info
      || IsTerrible(info[newTab[s]], now)
      || (info[newTab[s]].refCount > 1 && info[id].refCount == 0)
  }

  lemma DeletedTables(c: Config, info: map<Nid, Info>, info': map<Nid, Info>, newTab: Table, triedTab: Table,
      loose: set<Nid>)
    requires TablesOk(c, info, newTab, triedTab, loose) && OnlyPositions(info, info')
    ensures TablesOk(c, info', newTab, triedTab, loose)
    ensures NewIds(info') == NewIds(info) && TriedIds(info') == TriedIds(info)
    ensures info'.Keys == info.Keys && ServicesKept(info, info')
  {
    TablesFrame(c, info, info', newTab, triedTab, loose);
  }

  lemma InsertCounts(info: map<Nid, Info>, id: Nid, i: Info)
    requires id !in info && !i.inTried
    ensures |NewIds(info[id := i])| == |NewIds(info)| + 1 && TriedIds(info[id := i]) == TriedIds(info)
  {
    IdsAfterWrite(info, id, i);
    assert id !in NewIds(info) && id !in TriedIds(info);
  }

  lemma SomeSlot(c: Config, info: map<Nid, Info>, newTab: Table, triedTab: Table, id: Nid) returns (s: Slot)
    requires TablesOk(c, info, newTab, triedTab, {}) && id in info && !info[id].inTried
    ensures s in newTab && newTab[s] == id && 0 <= s.bucket < NEW_BUCKET_COUNT
      && s == NewSlot(c, s.bucket, info[id].service)
  {
    assert EntryOk(c, info[id], id, newTab, triedTab, id in {});
    assert SlotsOf(newTab, id) != {};
    s :| s in SlotsOf(newTab, id);
    assert FreshSlotOk(c, info, s, newTab[s]);
  }

  /** Rewriting an entry without touching its address or position keeps the indexes. */
  lemma WriteKeeps(env: Env, info: map<Nid, Info>, id: Nid, i: Info, random: seq<Nid>, byAddr: map<NetAddr, Nid>,
      n: Nid)
    requires RandomOk(info, random) && AddrOk(info, byAddr) && IdsOk(info, n) && StatsOk(env, info)
    requires id in info && i.service == info[id].service && i.randomPos == info[id].randomPos
    requires i.lastTry == info[id].lastTry || i.lastTry >= 0
    requires i.lastSuccess == info[id].lastSuccess || i.lastSuccess > 0
    requires i.inTried ==> info[id].inTried || i.lastSuccess > 0
    ensures RandomOk(info[id := i], random) && AddrOk(info[id := i], byAddr)
    ensures IdsOk(info[id := i], n) && StatsOk(env, info[id := i])
  {
  }

  lemma IdCounts(info: map<Nid, Info>, id: Nid, i: Info)
    requires id in info
    ensures var was, now := if info[id].inTried then 1 else 0, if i.inTried then 1 else 0;
            && |NewIds(info[id := i])| == |NewIds(info)| + was - now
            && |TriedIds(info[id := i])| == |TriedIds(info)| - was + now
  {
    hide NewIds, TriedIds;
    IdsAfterWrite(info, id, i);
    InOneSet(info, id);
    CardWith(NewIds(info), id);
    CardWith(TriedIds(info), id);
  }

  lemma InOneSet(info: map<Nid, Info>, id: Nid)
    requires id in info
    ensures id in NewIds(info) <==> !info[id].inTried
    ensures id in TriedIds(info) <==> info[id].inTried
  {
  }

  lemma CardWith(ids: set<Nid>, id: Nid)
    ensures |ids + {id}| == |ids| + (if id in ids then 0 else 1)
    ensures |ids - {id}| == |ids| - (if id in ids then 1 else 0)
  {
    if id in ids {
      assert ids + {id} == ids;
    } else {
      assert ids - {id} == ids;
    }
  }

  lemma TriedOccupant(c: Config, info: map<Nid, Info>, newTab: Table, triedTab: Table, loose: set<Nid>, s: Slot)
    requires TablesOk(c, info, newTab, triedTab, loose) && s in triedTab
    ensures triedTab[s] in info && info[triedTab[s]].inTried && info[triedTab[s]].refCount == 0
    ensures s == TriedSlot(c, info[triedTab[s]].service)
  {
    assert TriedSlotOk(c, info, s, triedTab[s]);
    assert EntryOk(c, info[triedTab[s]], triedTab[s], newTab, triedTab, triedTab[s] in loose);
  }

  /** The occupant of a new slot has a reference, so it is none of the unreferenced entries. */
  lemma LooseNotReferenced(c: Config, info: map<Nid, Info>, newTab: Table, triedTab: Table, loose: set<Nid>, s: Slot)
    requires TablesOk(c, info, newTab, triedTab, loose)
    ensures s in newTab ==> newTab[s] in info && info[newTab[s]].refCount >= 1
  {
    if s in newTab {
      ReferencedEntry(c, info, newTab, triedTab, loose, s);
    }
  }

  lemma SurvivesClear(info: map<Nid, Info>, info': map<Nid, Info>, newTab: Table, s: Slot, id: Nid)
    requires id in info
    requires s !in newTab ==> info' == info
    requires s in newTab ==> Cleared(info, info', newTab[s]) && newTab[s] != id
    ensures id in info' && info'[id] == info[id].(randomPos := info'[id].randomPos)
    ensures info'.Keys <= info.Keys && ServicesKept(info, info')
  {
    if s in newTab && info[newTab[s]].refCount == 1 {
      assert id in info - {newTab[s]};
    }
  }

  /** The slots of id in buckets below a bound. */
  ghost function SlotsBelow(t: Table, id: Nid, bucket: int): set<Slot>
  {
    set s | s in t && t[s] == id && s.bucket < bucket
  }

  lemma BelowNext(c: Config, info: map<Nid, Info>, newTab: Table, triedTab: Table, id: Nid, bucket: nat)
    requires TablesOk(c, info, newTab, triedTab, {}) && id in info
    ensures var s := NewSlot(c, bucket, info[id].service);
            SlotsBelow(newTab, id, bucket + 1) ==
            SlotsBelow(newTab, id, bucket) + (if s in SlotsOf(newTab, id) then {s} else {})
    ensures forall s | s in SlotsBelow(newTab, id, bucket) :: s.bucket < bucket
  {
    hide BucketPosition, EntryOk, TriedSlotOk;
    var s := NewSlot(c, bucket, info[id].service);
    var below, next := SlotsBelow(newTab, id, bucket), SlotsBelow(newTab, id, bucket + 1);
    forall t ensures t in next <==> t in below || (t == s && s in SlotsOf(newTab, id)) {
      if t in newTab {
        assert FreshSlotOk(c, info, t, newTab[t]);
      }
    }
  }

  lemma AllBelow(c: Config, info: map<Nid, Info>, newTab: Table, triedTab: Table, id: Nid)
    requires TablesOk(c, info, newTab, triedTab, {})
    ensures SlotsBelow(newTab, id, 0) == {}
    ensures SlotsBelow(newTab, id, NEW_BUCKET_COUNT) == SlotsOf(newTab, id)
  {
    forall s | s in newTab ensures 0 <= s.bucket < NEW_BUCKET_COUNT { assert FreshSlotOk(c, info, s, newTab[s]); }
  }

  lemma NoSlotsLeft(c: Config, info: map<Nid, Info>, new0: Table, newTab: Table, triedTab: Table, id: Nid)
    requires TablesOk(c, info, newTab, triedTab, {id}) && id in info && !info[id].inTried
    requires newTab == new0 - SlotsOf(new0, id)
    ensures info[id].refCount == 0
  {
    assert EntryOk(c, info[id], id, newTab, triedTab, id in {id});
    assert SlotsOf(newTab, id) == {};
  }

  lemma IdInRange(info: map<Nid, Info>, n: Nid, id: Nid)
    requires IdsOk(info, n) && id in info
    ensures 0 <= id < n
  {
  }

  lemma IdSetsKept(info: map<Nid, Info>, info': map<Nid, Info>)
    requires info'.Keys == info.Keys
    requires forall id | id in info :: info'[id].inTried == info[id].inTried
    ensures NewIds(info') == NewIds(info) && TriedIds(info') == TriedIds(info)
  {
    forall id ensures id in NewIds(info') <==> id in NewIds(info) {
      assert id in info' <==> id in info;
    }
    forall id ensures id in TriedIds(info') <==> id in TriedIds(info) {
      assert id in info' <==> id in info;
    }
  }

  lemma ClearedRest(env: Env, info: map<Nid, Info>, info': map<Nid, Info>, byAddr: map<NetAddr, Nid>, n: Nid, id: Nid)
    requires Cleared(info, info', id) && AddrOk(info, byAddr) && IdsOk(info, n) && StatsOk(env, info)
    ensures AddrOk(info', if info[id].refCount == 1 then byAddr - {info[id].service.addr} else byAddr)
    ensures IdsOk(info', n) && StatsOk(env, info')
  {
    if info[id].refCount == 1 {
      DeletedRest(env, info, info', byAddr, n, id);
    }
  }

  lemma DeletedRest(env: Env, info: map<Nid, Info>, info': map<Nid, Info>, byAddr: map<NetAddr, Nid>, n: Nid, id: Nid)
    requires id in info && OnlyPositions(info - {id}, info') && AddrOk(info, byAddr) && IdsOk(info, n)
      && StatsOk(env, info)
    ensures AddrOk(info', byAddr - {info[id].service.addr}) && IdsOk(info', n) && StatsOk(env, info')
  {
    var rest, byAddr' := info - {id}, byAddr - {info[id].service.addr};
    assert AddrOk(rest, byAddr') by {
      forall x | x in rest ensures rest[x].service.addr in byAddr' && byAddr'[rest[x].service.addr] == x {
        assert byAddr[info[x].service.addr] == x;
      }
    }
    OnlyPositionsKeeps(env, rest, info', byAddr', n);
  }

  lemma RandomKept(info: map<Nid, Info>, info': map<Nid, Info>, random: seq<Nid>)
    requires RandomOk(info, random) && info'.Keys == info.Keys
    requires forall id | id in info :: info'[id].randomPos == info[id].randomPos
    ensures RandomOk(info', random)
  {
  }

  /** One reference to id was dropped, and with the last one the entry itself. */
  ghost predicate Cleared(info: map<Nid, Info>, info': map<Nid, Info>, id: Nid)
  {
    && id in info
    && if info[id].refCount == 1 then OnlyPositions(info - {id}, info')
       else info' == info[id := info[id].(refCount := info[id].refCount - 1)]
  }

  lemma ReferencedEntry(c: Config, info: map<Nid, Info>, newTab: Table, triedTab: Table, loose: set<Nid>, s: Slot)
    requires TablesOk(c, info, newTab, triedTab, loose) && s in newTab
    ensures newTab[s] in info && !info[newTab[s]].inTried && info[newTab[s]].refCount >= 1
  {
    assert FreshSlotOk(c, info, s, newTab[s]);
    DropReference(c, info, newTab, triedTab, loose, s);
  }

  lemma ClearedTables(c: Config, info: map<Nid, Info>, info': map<Nid, Info>, newTab: Table, triedTab: Table,
      loose: set<Nid>, s: Slot)
    requires TablesOk(c, info, newTab, triedTab, loose) && s in newTab && Cleared(info, info', newTab[s])
    ensures TablesOk(c, info', newTab - {s}, triedTab, loose)
    ensures |NewIds(info')| == |NewIds(info)| - (if info[newTab[s]].refCount == 1 then 1 else 0)
    ensures TriedIds(info') == TriedIds(info)
  {
    hide TablesOk;
    var id := newTab[s];
    ReferencedEntry(c, info, newTab, triedTab, loose, s);
    DropReference(c, info, newTab, triedTab, loose, s);
    var info1 := info[id := info[id].(refCount := info[id].refCount - 1)];
    IdsAfterWrite(info, id, info1[id]);
    assert NewIds(info1) == NewIds(info);
    if info[id].refCount == 1 {
      assert info1 - {id} == info - {id};
      RemoveEntry(c, info1, newTab - {s}, triedTab, loose + {id}, id);
      TablesFrame(c, info1 - {id}, info', newTab - {s}, triedTab, (loose + {id}) - {id});
      LooserTables(c, info', newTab - {s}, triedTab, (loose + {id}) - {id}, loose);
    } else {
      TightenTables(c, info1, newTab - {s}, triedTab, loose, id);
    }
  }

  lemma LooserTables(c: Config, info: map<Nid, Info>, newTab: Table, triedTab: Table, loose: set<Nid>, looser: set<Nid>)
    requires TablesOk(c, info, newTab, triedTab, loose) && loose <= looser
    ensures TablesOk(c, info, newTab, triedTab, looser)
  {
    forall id | id in info ensures EntryOk(c, info[id], id, newTab, triedTab, id in looser) {
      assert EntryOk(c, info[id], id, newTab, triedTab, id in loose);
    }
  }

  lemma TightenTables(c: Config, info: map<Nid, Info>, newTab: Table, triedTab: Table, loose: set<Nid>, id: Nid)
    requires TablesOk(c, info, newTab, triedTab, loose + {id})
    requires id in info ==> info[id].inTried || info[id].refCount != 0
    ensures TablesOk(c, info, newTab, triedTab, loose)
    ensures id in info && !info[id].inTried ==> info[id].refCount >= 1
  {
    if id in info {
      assert EntryOk(c, info[id], id, newTab, triedTab, id in loose + {id});
    }
    forall x | x in info ensures EntryOk(c, info[x], x, newTab, triedTab, x in loose) {
      assert EntryOk(c, info[x], x, newTab, triedTab, x in loose + {id});
    }
  }
}
