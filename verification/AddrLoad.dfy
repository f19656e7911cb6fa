/** Loading a stored address manager. */
module AddrLoad {
  import opened AddrTypes
  import opened AddrManager
  import opened AddrSerial
  import opened AddrCheck
  import opened AddrStream
  import opened AddrRestore

  // ---- Reading the records ------------------------------------------------

  /** The state while loading: consistent up to counters, loose entries, addresses and statistics. */
  ghost predicate Loading(am: AddrMan, loose: set<Nid>)
    reads am`nKey, am`mapInfo, am`vRandom, am`nIdCount, am.vvTried, am.vvNew
  {
    && am.Shape()
    && RandomOk(am.mapInfo, am.vRandom) && IdsOk(am.mapInfo, am.nIdCount)
    && TablesOk(am.Cfg(), am.mapInfo, am.NewTab(), am.TriedTab(), loose)
  }

  /** Entry i is record i, without references. */
  ghost predicate AsLoaded(info: map<Nid, Info>, recs: seq<Rec>, nNew: int)
  {
    && Dense(info, |recs|)
    && forall i | 0 <= i < |recs| :: info[i] == FromRec(recs[i]).(randomPos := i, inTried := i >= nNew)
  }

  lemma AsLoadedNext(info: map<Nid, Info>, info': map<Nid, Info>, recs: seq<Rec>, r: Rec, nNew: int)
    requires AsLoaded(info, recs, nNew)
    requires info' == info[|recs| := FromRec(r).(randomPos := |recs|, inTried := |recs| >= nNew)]
    ensures AsLoaded(info', recs + [r], nNew)
  {
  }

  lemma LastIdsNext(recs: seq<Rec>, r: Rec)
    ensures LastIds(recs + [r]) == LastIds(recs)[r.service.addr := |recs|]
  {
    assert (recs + [r])[..|recs|] == recs;
  }

  /** Appends a stored record as an entry without references. */
  method Append(am: AddrMan, r: Rec, ghost loose: set<Nid>) returns (id: Nid)
    requires Loading(am, loose)
    modifies am`nIdCount, am`mapInfo, am`mapAddr, am`vRandom
    ensures Loading(am, loose + {id})
    ensures id == old(am.nIdCount) && am.nIdCount == id + 1 && id !in old(am.mapInfo)
    ensures am.mapInfo == old(am.mapInfo)[id := FromRec(r).(randomPos := |old(am.vRandom)|)]
    ensures am.mapAddr == old(am.mapAddr)[r.service.addr := id]
    ensures am.vRandom == old(am.vRandom) + [id]
    ensures |NewIds(am.mapInfo)| == old(|NewIds(am.mapInfo)|) + 1 && TriedIds(am.mapInfo) == old(TriedIds(am.mapInfo))
  {
    hide TableOf, TablesOk, NewIds, TriedIds;
    id := am.nIdCount;
    ghost var info0 := am.mapInfo;
    var i := FromRec(r).(randomPos := |am.vRandom|);
    InsertEntry(am.Cfg(), info0, am.NewTab(), am.TriedTab(), loose, id, i);
    InsertCounts(info0, id, i);
    am.mapInfo := am.mapInfo[id := i];
    am.mapAddr := am.mapAddr[r.service.addr := id];
    am.vRandom := am.vRandom + [id];
    am.nIdCount := am.nIdCount + 1;
  }

  /** Reads the new entries; they get the ids 0, 1, 2, ... */
  method LoadNew(am: AddrMan, s: Stream)
    requires am.Shape() && am.mapInfo == map[] && am.mapAddr == map[] && am.vRandom == [] && am.nIdCount == 0
    requires am.NewTab() == map[] && am.TriedTab() == map[]
    requires 0 <= s.nNew <= |s.newRecs|
    modifies am`nIdCount, am`mapInfo, am`mapAddr, am`vRandom
    ensures Loading(am, am.mapInfo.Keys) && am.nIdCount == s.nNew == |am.vRandom|
    ensures AsLoaded(am.mapInfo, s.newRecs[..s.nNew], s.nNew) && am.mapAddr == LastIds(s.newRecs[..s.nNew])
    ensures |NewIds(am.mapInfo)| == s.nNew && TriedIds(am.mapInfo) == {}
  {
    hide TableOf, TablesOk, NewIds, TriedIds, Loading, AsLoaded, LastIds;
    EmptyStart(am, s.nNew);
    assert s.newRecs[..0] == [];
    for n := 0 to s.nNew
      invariant Loading(am, am.mapInfo.Keys) && am.nIdCount == n == |am.vRandom|
      invariant AsLoaded(am.mapInfo, s.newRecs[..n], s.nNew) && am.mapAddr == LastIds(s.newRecs[..n])
      invariant |NewIds(am.mapInfo)| == n && TriedIds(am.mapInfo) == {}
    {
      ghost var keys, info0 := am.mapInfo.Keys, am.mapInfo;
      var id := Append(am, s.newRecs[n], keys);
      assert keys + {id} == am.mapInfo.Keys;
      assert s.newRecs[..n + 1] == s.newRecs[..n] + [s.newRecs[n]];
      AsLoadedNext(info0, am.mapInfo, s.newRecs[..n], s.newRecs[n], s.nNew);
      LastIdsNext(s.newRecs[..n], s.newRecs[n]);
    }
  }

  lemma EmptyStart(am: AddrMan, nNew: int)
    requires am.Shape() && am.mapInfo == map[] && am.mapAddr == map[] && am.vRandom == [] && am.nIdCount == 0
    requires am.NewTab() == map[] && am.TriedTab() == map[]
    ensures Loading(am, am.mapInfo.Keys) && AsLoaded(am.mapInfo, [], nNew) && LastIds([]) == map[]
    ensures |NewIds(am.mapInfo)| == 0 && TriedIds(am.mapInfo) == {}
  {
    hide TableOf;
    assert am.mapInfo.Keys == {};
    EmptyTables(am.Cfg());
  }

  /** Reads the tried entries into their slots; exactly those whose slot is taken, or whose address
      is not valid, are dropped. */
  method LoadTried(am: AddrMan, s: Stream) returns (lost: nat)
    requires 0 <= s.nNew <= |s.newRecs| && 0 <= s.nTried <= |s.triedRecs|
    requires Loading(am, am.mapInfo.Keys) && am.nIdCount == s.nNew == |am.vRandom|
    requires AsLoaded(am.mapInfo, s.newRecs[..s.nNew], s.nNew) && am.mapAddr == LastIds(s.newRecs[..s.nNew])
    requires TriedIds(am.mapInfo) == {} && am.TriedTab() == map[]
    modifies am`nIdCount, am`mapInfo, am`mapAddr, am`vRandom, am.vvTried
    ensures Loading(am, old(am.mapInfo).Keys)
    ensures lost == s.nTried - |Entered(am.Cfg(), s.triedRecs[..s.nTried])| && am.nIdCount == s.nNew + s.nTried - lost
    ensures AsLoaded(am.mapInfo, Loaded(am.Cfg(), s), s.nNew) && am.mapAddr == LastIds(Loaded(am.Cfg(), s))
    ensures |TriedIds(am.mapInfo)| == s.nTried - lost && |NewIds(am.mapInfo)| == old(|NewIds(am.mapInfo)|)
  {
    hide TableOf, NewIds, TriedIds, Loading, TriedSlot, AsLoaded, LastIds, SlotTaken, Entered;
    lost := 0;
    ghost var c, news, first := am.Cfg(), am.mapInfo.Keys, s.newRecs[..s.nNew];
    EnteredNone(c, s.triedRecs[..0]);
    assert first + [] == first;
    for n := 0 to s.nTried
      invariant lost == n - |Entered(c, s.triedRecs[..n])| && am.nIdCount == s.nNew + n - lost == |am.vRandom|
      invariant Loading(am, news) && news <= am.mapInfo.Keys
      invariant AsLoaded(am.mapInfo, first + Entered(c, s.triedRecs[..n]), s.nNew)
      invariant am.mapAddr == LastIds(first + Entered(c, s.triedRecs[..n]))
      invariant |TriedIds(am.mapInfo)| == n - lost && |NewIds(am.mapInfo)| == old(|NewIds(am.mapInfo)|)
    {
      ghost var r, info0, was := s.triedRecs[n], am.mapInfo, Entered(c, s.triedRecs[..n]);
      TakenSlots(am, news, s, was, TriedSlot(c, r.service));
      EnteredNext(c, s.triedRecs, n);
      NotLoose(info0, news, first + was, s.nNew, am.nIdCount);
      var kept := LoadOneTried(am, s.triedRecs[n], news);
      if kept {
        assert first + (was + [r]) == (first + was) + [r];
        AsLoadedNext(info0, am.mapInfo, first + was, r, s.nNew);
        LastIdsNext(first + was, r);
      } else {
        lost := lost + 1;
      }
    }
  }

  lemma NotLoose(info: map<Nid, Info>, loose: set<Nid>, recs: seq<Rec>, nNew: int, id: Nid)
    requires AsLoaded(info, recs, nNew) && loose <= info.Keys && id == |recs|
    ensures id !in loose
  {
  }

  /** The tried slots in use are those of the tried records loaded so far. */
  lemma TakenSlots(am: AddrMan, loose: set<Nid>, s: Stream, entered: seq<Rec>, t: Slot)
    requires Loading(am, loose) && 0 <= s.nNew <= |s.newRecs|
    requires AsLoaded(am.mapInfo, s.newRecs[..s.nNew] + entered, s.nNew)
    ensures t in am.TriedTab() <==> SlotTaken(am.Cfg(), entered, t)
  {
    hide TableOf, TriedSlot, NewSlot;
    var c, recs := am.Cfg(), s.newRecs[..s.nNew] + entered;
    if t in am.TriedTab() {
      var id := am.TriedTab()[t];
      assert TriedSlotOk(c, am.mapInfo, t, id);
      assert recs[id] == entered[id - s.nNew];
    }
    if SlotTaken(c, entered, t) {
      var j :| 0 <= j < |entered| && TriedSlot(c, entered[j].service) == t;
      var id: Nid := s.nNew + j;
      assert recs[id] == entered[j] && id in am.mapInfo;
      assert EntryOk(c, am.mapInfo[id], id, am.NewTab(), am.TriedTab(), id in loose);
    }
  }

  /** Reads one tried entry; the result says whether it found its slot free. */
  method LoadOneTried(am: AddrMan, r: Rec, ghost loose: set<Nid>) returns (kept: bool)
    requires Loading(am, loose) && am.nIdCount !in loose
    modifies am`nIdCount, am`mapInfo, am`mapAddr, am`vRandom, am.vvTried
    ensures Loading(am, loose)
    ensures kept <==> am.env.isValid(r.service.addr) && TriedSlot(am.Cfg(), r.service) !in old(am.TriedTab())
    ensures kept ==>
              && am.nIdCount == old(am.nIdCount) + 1 && am.vRandom == old(am.vRandom) + [old(am.nIdCount)]
              && am.mapInfo ==
                 old(am.mapInfo)[old(am.nIdCount) := FromRec(r).(randomPos := |old(am.vRandom)|, inTried := true)]
              && am.mapAddr == old(am.mapAddr)[r.service.addr := old(am.nIdCount)]
              && am.TriedTab() == old(am.TriedTab())[TriedSlot(am.Cfg(), r.service) := old(am.nIdCount)]
              && |TriedIds(am.mapInfo)| == old(|TriedIds(am.mapInfo)|) + 1
    ensures !kept ==>
              && am.nIdCount == old(am.nIdCount) && am.mapInfo == old(am.mapInfo) && am.mapAddr == old(am.mapAddr)
              && am.vRandom == old(am.vRandom) && am.TriedTab() == old(am.TriedTab())
    ensures |NewIds(am.mapInfo)| == old(|NewIds(am.mapInfo)|)
  {
    hide TableOf, NewIds, TriedIds, Loading, TriedBucket, BucketPosition;
    var cfg := Config(am.env, am.nKey, am.asmap);
    var bucket := TriedBucket(cfg, r.service);
    var pos := BucketPosition(cfg, false, bucket, r.service);
    LoadingShape(am, loose);
    SlotContent(am.vvTried, bucket, pos);
    kept := am.env.isValid(r.service.addr) && am.vvTried[bucket, pos] < 0;
    if kept {
      var id := Append(am, r, loose);
      AppendedTried(am, bucket, pos, id, r, loose);
    }
  }

  lemma LoadingShape(am: AddrMan, loose: set<Nid>)
    requires Loading(am, loose)
    ensures am.Shape()
  {
  }

  /** Marks a just appended entry as tried and puts it into its slot. */
  method AppendedTried(am: AddrMan, bucket: nat, pos: nat, id: Nid, ghost r: Rec, ghost loose: set<Nid>)
    requires Loading(am, loose + {id}) && id !in loose && id in am.mapInfo
    requires am.mapInfo[id] == FromRec(r).(randomPos := am.mapInfo[id].randomPos)
    requires Slot(bucket, pos) == TriedSlot(am.Cfg(), r.service) && Slot(bucket, pos) !in am.TriedTab()
    requires bucket < TRIED_BUCKET_COUNT && pos < BUCKET_SIZE
    modifies am`mapInfo, am.vvTried
    ensures Loading(am, loose)
    ensures am.mapInfo == old(am.mapInfo)[id := old(am.mapInfo)[id].(inTried := true)]
    ensures am.TriedTab() == old(am.TriedTab())[Slot(bucket, pos) := id]
    ensures |NewIds(am.mapInfo)| == old(|NewIds(am.mapInfo)|) - 1
      && |TriedIds(am.mapInfo)| == old(|TriedIds(am.mapInfo)|) + 1
  {
    hide TableOf, TablesOk, NewIds, TriedIds, RandomOk, IdsOk, TriedSlot;
    ghost var info0 := am.mapInfo;
    EnterTried(am.Cfg(), info0, am.NewTab(), am.TriedTab(), loose + {id}, id);
    IdInRange(info0, am.nIdCount, id);
    IdCounts(info0, id, info0[id].(inTried := true));
    am.mapInfo := am.mapInfo[id := am.mapInfo[id].(inTried := true)];
    SetSlot(am.vvTried, bucket, pos, id);
    assert (loose + {id}) - {id} == loose;
    RandomKept(info0, am.mapInfo, am.vRandom);
    IdsKept(info0, am.mapInfo, am.nIdCount);
  }

  lemma IdsKept(info: map<Nid, Info>, info': map<Nid, Info>, n: Nid)
    requires IdsOk(info, n) && info'.Keys == info.Keys
    ensures IdsOk(info', n)
  {
  }

  // ---- Placing the new entries --------------------------------------------

  /** The map leads each listed index to the last bucket that lists it. */
  ghost predicate BucketsRead(s: Stream, nUBuckets: int, entryToBucket: map<int, int>)
    requires nUBuckets <= |s.buckets|
  {
    forall n | 0 <= n < s.nNew ::
      if n in entryToBucket then 0 <= entryToBucket[n] == LastBucket(s, nUBuckets, n)
      else LastBucket(s, nUBuckets, n) == -1
  }

  /** The bucket each stored index was last listed in. */
  method ReadBuckets(s: Stream, nUBuckets: int) returns (entryToBucket: map<int, int>)
    requires nUBuckets <= |s.buckets|
    ensures BucketsRead(s, nUBuckets, entryToBucket)
  {
    entryToBucket := map[];
    for bucket := 0 to Max(0, nUBuckets)
      invariant BucketsRead(s, bucket, entryToBucket)
    {
      var indices := s.buckets[bucket];
      ghost var before := entryToBucket;
      for k := 0 to |indices|
        invariant forall n | 0 <= n < s.nNew && n in indices[..k] :: n in entryToBucket && entryToBucket[n] == bucket
        invariant forall n | n !in indices[..k] :: n in entryToBucket <==> n in before
        invariant forall n | n !in indices[..k] && n in before :: entryToBucket[n] == before[n]
      {
        var index := indices[k];
        if 0 <= index < s.nNew {
          entryToBucket := entryToBucket[index := bucket];
        }
      }
      assert indices[..|indices|] == indices;
    }
  }

  /** Gives a loaded new entry a reference: in its stored bucket if that can be used and is free,
      otherwise in the bucket of its source if that is free. */
  method PlaceOne(am: AddrMan, n: Nid, usable: bool, home: int, ghost r: Rec, ghost loose: set<Nid>)
    requires Loading(am, loose) && n in am.mapInfo && !am.mapInfo[n].inTried && am.mapInfo[n].refCount == 0
    requires n >= 0 && am.mapInfo[n].service == r.service && am.mapInfo[n].source == r.source
    requires usable ==> 0 <= home < NEW_BUCKET_COUNT
    modifies am`mapInfo, am.vvNew
    ensures Loading(am, loose)
    ensures n in am.mapInfo
    ensures am.mapInfo == old(am.mapInfo)[n := old(am.mapInfo)[n].(refCount := am.mapInfo[n].refCount)]
    ensures am.NewTab() == PlaceNext(am.Cfg(), old(am.NewTab()), n, r, usable, home)
    ensures |NewIds(am.mapInfo)| == old(|NewIds(am.mapInfo)|) && |TriedIds(am.mapInfo)| == old(|TriedIds(am.mapInfo)|)
  {
    hide TableOf, NewIds, TriedIds, Loading, TablesOk, NewBucket, BucketPosition;
    var cfg := Config(am.env, am.nKey, am.asmap);
    var service := am.mapInfo[n].service;
    LoadingShape(am, loose);
    var bucket, pos := home, BucketPosition(cfg, true, home, service);
    var free := false;
    if usable {
      SlotContent(am.vvNew, bucket, pos);
      free := am.vvNew[bucket, pos] < 0 && am.mapInfo[n].refCount < NEW_BUCKETS_PER_ADDRESS;
    }
    if !free {
      bucket := NewBucket(cfg, service, am.mapInfo[n].source);
      pos := BucketPosition(cfg, true, bucket, service);
      SlotContent(am.vvNew, bucket, pos);
      free := am.vvNew[bucket, pos] < 0;
    }
    if free {
      PutReference(am, n, bucket, pos, loose);
    }
  }

  method PutReference(am: AddrMan, n: Nid, bucket: nat, pos: nat, ghost loose: set<Nid>)
    requires Loading(am, loose) && n in am.mapInfo && !am.mapInfo[n].inTried && am.mapInfo[n].refCount == 0
    requires bucket < NEW_BUCKET_COUNT && pos < BUCKET_SIZE
    requires Slot(bucket, pos) !in am.NewTab() && Slot(bucket, pos) == NewSlot(am.Cfg(), bucket, am.mapInfo[n].service)
    modifies am`mapInfo, am.vvNew
    ensures Loading(am, loose)
    ensures am.mapInfo == old(am.mapInfo)[n := old(am.mapInfo)[n].(refCount := 1)]
    ensures am.NewTab() == old(am.NewTab())[Slot(bucket, pos) := n]
    ensures |NewIds(am.mapInfo)| == old(|NewIds(am.mapInfo)|) && |TriedIds(am.mapInfo)| == old(|TriedIds(am.mapInfo)|)
  {
    hide TableOf, NewIds, TriedIds, TablesOk, RandomOk, IdsOk, BucketPosition;
    ghost var info0, new0 := am.mapInfo, am.NewTab();
    AddReference(am.Cfg(), info0, new0, am.TriedTab(), loose, Slot(bucket, pos), n);
    IdInRange(info0, am.nIdCount, n);
    IdCounts(info0, n, info0[n].(refCount := 1));
    SetSlot(am.vvNew, bucket, pos, n);
    am.mapInfo := am.mapInfo[n := am.mapInfo[n].(refCount := am.mapInfo[n].refCount + 1)];
    LooserTables(am.Cfg(), am.mapInfo, am.NewTab(), am.TriedTab(), loose - {n}, loose);
    RandomKept(info0, am.mapInfo, am.vRandom);
    IdsKept(info0, am.mapInfo, am.nIdCount);
  }

  /** info' is info with other reference counts for the first n entries. */
  ghost predicate OnlyCounts(info: map<Nid, Info>, info': map<Nid, Info>, n: int)
  {
    && info'.Keys == info.Keys
    && (forall i | i in info :: info'[i] == info[i].(refCount := info'[i].refCount))
    && (forall i | i in info && i >= n :: info'[i] == info[i])
  }

  lemma OnlyCountsNext(info: map<Nid, Info>, info1: map<Nid, Info>, info2: map<Nid, Info>, n: Nid)
    requires OnlyCounts(info, info1, n) && n in info1 && n in info2
    requires info2 == info1[n := info1[n].(refCount := info2[n].refCount)]
    ensures OnlyCounts(info, info2, n + 1)
  {
  }

  /** Places every new entry as the stream says. */
  method PlaceNew(am: AddrMan, s: Stream, nUBuckets: int, entryToBucket: map<int, int>, usable: bool,
      ghost loose: set<Nid>, ghost recs: seq<Rec>)
    requires 0 <= s.nNew <= |s.newRecs| && nUBuckets <= |s.buckets| && Loading(am, loose) && am.NewTab() == map[]
    requires AsLoaded(am.mapInfo, recs, s.nNew) && s.newRecs[..s.nNew] <= recs
    requires usable == Usable(am.Cfg(), s, nUBuckets)
    requires BucketsRead(s, nUBuckets, entryToBucket)
    modifies am`mapInfo, am.vvNew
    ensures Loading(am, loose) && OnlyCounts(old(am.mapInfo), am.mapInfo, s.nNew)
    ensures am.NewTab() == Places(am.Cfg(), s, nUBuckets, s.nNew)
    ensures |NewIds(am.mapInfo)| == old(|NewIds(am.mapInfo)|) && |TriedIds(am.mapInfo)| == old(|TriedIds(am.mapInfo)|)
  {
    hide TableOf, NewIds, TriedIds, Loading, PlaceNext, LastBucket, Usable, OnlyCounts, AsLoaded;
    ghost var c, info0 := am.Cfg(), am.mapInfo;
    OnlyCountsSame(info0);
    for n := 0 to s.nNew
      invariant Loading(am, loose) && OnlyCounts(info0, am.mapInfo, n)
      invariant am.NewTab() == Places(c, s, nUBuckets, n)
      invariant |NewIds(am.mapInfo)| == old(|NewIds(am.mapInfo)|)
        && |TriedIds(am.mapInfo)| == old(|TriedIds(am.mapInfo)|)
    {
      var home := if n in entryToBucket then entryToBucket[n] else 0;
      LastBucketBound(s, nUBuckets, n);
      UsableBuckets(c, s, nUBuckets);
      assert recs[n] == s.newRecs[n];
      Untouched(info0, am.mapInfo, recs, s.nNew, n);
      ghost var info1 := am.mapInfo;
      PlaceOne(am, n, usable, home, s.newRecs[n], loose);
      OnlyCountsNext(info0, info1, am.mapInfo, n);
    }
  }

  lemma OnlyCountsSame(info: map<Nid, Info>)
    ensures OnlyCounts(info, info, 0)
  {
  }

  lemma Untouched(info: map<Nid, Info>, info1: map<Nid, Info>, recs: seq<Rec>, nNew: int, n: nat)
    requires AsLoaded(info, recs, nNew) && OnlyCounts(info, info1, n) && n < nNew && n < |recs|
    ensures n in info1 && info1[n] == FromRec(recs[n]).(randomPos := n)
  {
  }

  lemma UsableBuckets(c: Config, s: Stream, nUBuckets: int)
    ensures Usable(c, s, nUBuckets) ==> nUBuckets == NEW_BUCKET_COUNT
  {
  }

  lemma {:induction false} LastBucketBound(s: Stream, nUBuckets: int, n: int)
    requires nUBuckets <= |s.buckets|
    ensures -1 <= LastBucket(s, nUBuckets, n) < Max(1, nUBuckets)
    ensures LastBucket(s, nUBuckets, n) >= 0 ==> LastBucket(s, nUBuckets, n) < nUBuckets
    decreases Max(0, nUBuckets)
  {
    if nUBuckets > 0 {
      LastBucketBound(s, nUBuckets - 1, n);
    }
  }

  // ---- Pruning ------------------------------------------------------------

  /** The entries that are neither tried nor referenced. */
  ghost function Unplaced(info: map<Nid, Info>): set<Nid>
  {
    set id | id in info && !info[id].inTried && info[id].refCount == 0
  }

  ghost function AddrsOf(info: map<Nid, Info>, ids: set<Nid>): set<NetAddr>
  {
    set id | id in info && id in ids :: info[id].service.addr
  }

  /** Deletes one entry if it has no reference and is not tried. */
  method PruneOne(am: AddrMan, id: Nid, ghost loose: set<Nid>)
    requires Loading(am, loose)
    modifies am`mapInfo, am`mapAddr, am`vRandom, am`nNew
    ensures Loading(am, loose - {id})
    ensures am.NewSurplus() == old(am.NewSurplus()) && TriedIds(am.mapInfo) == old(TriedIds(am.mapInfo))
    ensures id in Unplaced(old(am.mapInfo)) ==>
              && OnlyPositions(old(am.mapInfo) - {id}, am.mapInfo)
              && am.mapAddr == old(am.mapAddr) - {old(am.mapInfo)[id].service.addr}
    ensures id !in Unplaced(old(am.mapInfo)) ==>
              am.mapInfo == old(am.mapInfo) && am.mapAddr == old(am.mapAddr) && am.nNew == old(am.nNew)
  {
    hide TableOf, NewIds, TriedIds, TablesOk, RandomOk, IdsOk, OnlyPositions;
    ghost var c, info0, rest := am.Cfg(), am.mapInfo, loose - {id};
    if id in am.mapInfo && !am.mapInfo[id].inTried && am.mapInfo[id].refCount == 0 {
      RemoveEntry(c, info0, am.NewTab(), am.TriedTab(), loose, id);
      am.Delete(id);
      DeletedTables(c, info0 - {id}, am.mapInfo, am.NewTab(), am.TriedTab(), rest);
      IdsPruned(info0, am.mapInfo, am.nIdCount);
    } else {
      LooserTables(c, info0, am.NewTab(), am.TriedTab(), loose, rest + {id});
      TightenTables(c, info0, am.NewTab(), am.TriedTab(), rest, id);
    }
  }

  lemma IdsPruned(info: map<Nid, Info>, info': map<Nid, Info>, n: Nid)
    requires IdsOk(info, n) && info'.Keys <= info.Keys
    ensures IdsOk(info', n)
  {
  }

  /** info' and byAddr' are info and byAddr without some entries and their addresses. */
  ghost predicate Without(info: map<Nid, Info>, byAddr: map<NetAddr, Nid>, gone: set<Nid>, info': map<Nid, Info>,
      byAddr': map<NetAddr, Nid>)
  {
    OnlyPositions(info - gone, info') && byAddr' == byAddr - AddrsOf(info, gone)
  }

  lemma WithoutNone(info: map<Nid, Info>, byAddr: map<NetAddr, Nid>)
    ensures Without(info, byAddr, {}, info, byAddr)
  {
    assert info - {} == info && AddrsOf(info, {}) == {};
  }

  lemma WithoutOneMore(info: map<Nid, Info>, byAddr: map<NetAddr, Nid>, gone: set<Nid>, info1: map<Nid, Info>,
      byAddr1: map<NetAddr, Nid>, id: Nid, info2: map<Nid, Info>, byAddr2: map<NetAddr, Nid>)
    requires Without(info, byAddr, gone, info1, byAddr1) && id in info1
    requires OnlyPositions(info1 - {id}, info2) && byAddr2 == byAddr1 - {info1[id].service.addr}
    ensures Without(info, byAddr, gone + {id}, info2, byAddr2)
  {
    assert id in info - gone;
    assert AddrsOf(info, gone + {id}) == AddrsOf(info, gone) + {info[id].service.addr};
    var rest := info - (gone + {id});
    assert info2.Keys == rest.Keys;
    forall x | x in rest ensures info2[x] == rest[x].(randomPos := info2[x].randomPos) {
      assert x in info1 - {id} && x in info - gone;
    }
  }

  /** Deletes exactly the entries without references, and their addresses from the index. */
  method Prune(am: AddrMan, ghost loose: set<Nid>)
    requires Loading(am, loose) && 0 <= am.nIdCount && forall id | id in loose :: 0 <= id < am.nIdCount
    modifies am`mapInfo, am`mapAddr, am`vRandom, am`nNew
    ensures Loading(am, {})
    ensures am.NewSurplus() == old(am.NewSurplus()) && TriedIds(am.mapInfo) == old(TriedIds(am.mapInfo))
    ensures Without(old(am.mapInfo), old(am.mapAddr), Unplaced(old(am.mapInfo)), am.mapInfo, am.mapAddr)
    ensures Unplaced(old(am.mapInfo)) == {} ==> am.mapInfo == old(am.mapInfo) && am.nNew == old(am.nNew)
  {
    hide TableOf, NewIds, TriedIds, Loading, Without, Unplaced;
    ghost var rest, info0, gone := loose, am.mapInfo, {};
    UnplacedInRange(am, loose);
    WithoutNone(am.mapInfo, am.mapAddr);
    for id := 0 to am.nIdCount
      invariant Loading(am, rest) && forall x | x in rest :: id <= x < am.nIdCount
      invariant am.NewSurplus() == old(am.NewSurplus()) && TriedIds(am.mapInfo) == old(TriedIds(am.mapInfo))
      invariant Without(info0, old(am.mapAddr), gone, am.mapInfo, am.mapAddr)
      invariant gone <= Unplaced(info0) && (forall x | x in gone :: x < id)
      invariant forall x | x in Unplaced(info0) && x < id :: x in gone
      invariant Unplaced(info0) == {} ==> am.mapInfo == info0 && am.nNew == old(am.nNew)
    {
      ghost var info1, byAddr1 := am.mapInfo, am.mapAddr;
      StillUnplaced(info0, old(am.mapAddr), gone, info1, byAddr1, id);
      PruneOne(am, id, rest);
      rest := rest - {id};
      if id in Unplaced(info0) {
        WithoutOneMore(info0, old(am.mapAddr), gone, info1, byAddr1, id, am.mapInfo, am.mapAddr);
        gone := gone + {id};
      }
    }
    assert gone == Unplaced(info0);
    assert (forall x :: x !in rest) ==> rest == {};
  }

  lemma UnplacedInRange(am: AddrMan, loose: set<Nid>)
    requires Loading(am, loose)
    ensures forall x | x in Unplaced(am.mapInfo) :: 0 <= x < am.nIdCount
  {
    hide TableOf, RandomOk, TablesOk;
  }

  lemma StillUnplaced(info: map<Nid, Info>, byAddr: map<NetAddr, Nid>, gone: set<Nid>, info1: map<Nid, Info>,
      byAddr1: map<NetAddr, Nid>, id: Nid)
    requires Without(info, byAddr, gone, info1, byAddr1) && id !in gone
    ensures id in Unplaced(info1) <==> id in Unplaced(info)
    ensures id in Unplaced(info1) ==> id in info1
  {
    assert id in info - gone <==> id in info;
  }

  // ---- The whole stream ---------------------------------------------------

  /** After placing, the entries without references are the records that do not stay. */
  lemma UnplacedAre(c: Config, s: Stream, info1: map<Nid, Info>, info2: map<Nid, Info>, triedTab: Table,
      loose: set<Nid>)
    requires Complete(s, UBuckets(s)) && AsLoaded(info1, Loaded(c, s), s.nNew) && OnlyCounts(info1, info2, s.nNew)
    requires TablesOk(c, info2, Places(c, s, UBuckets(s), s.nNew), triedTab, loose)
    ensures forall i {:trigger i in Unplaced(info2)} ::
              i in Unplaced(info2) <==> 0 <= i < |Loaded(c, s)| && !Stays(c, s, i)
  {
    hide Loaded, Places, UBuckets, NewSlot, TriedSlot;
    var recs, newTab := Loaded(c, s), Places(c, s, UBuckets(s), s.nNew);
    forall i: Nid ensures i in Unplaced(info2) <==> 0 <= i < |recs| && !Stays(c, s, i) {
      if i in info2 {
        assert info1[i] == FromRec(recs[i]).(randomPos := i, inTried := i >= s.nNew);
        assert EntryOk(c, info2[i], i, newTab, triedTab, i in loose);
        HeldIffReferenced(newTab, i);
      }
    }
  }

  lemma HeldIffReferenced(t: Table, id: Nid)
    ensures id in t.Values <==> |SlotsOf(t, id)| != 0
  {
    if id in t.Values {
      var s :| s in t && t[s] == id;
      assert s in SlotsOf(t, id);
    }
    if |SlotsOf(t, id)| != 0 {
      assert (forall s :: s !in SlotsOf(t, id)) ==> SlotsOf(t, id) == {};
      var s :| s in SlotsOf(t, id);
    }
  }

  /** The stages together: what is left after pruning is what the stream stands for. */
  lemma StagesLoad(c: Config, s: Stream, info1: map<Nid, Info>, info2: map<Nid, Info>, st: State, loose: set<Nid>)
    requires Complete(s, UBuckets(s)) && AsLoaded(info1, Loaded(c, s), s.nNew) && OnlyCounts(info1, info2, s.nNew)
    requires st.newTab == Places(c, s, UBuckets(s), s.nNew)
    requires TablesOk(c, info2, st.newTab, st.triedTab, loose)
    requires Without(info2, LastIds(Loaded(c, s)), Unplaced(info2), st.info, st.byAddr)
    requires RandomOk(st.info, st.random) && IdsOk(st.info, st.nIdCount) && CountsOk(st) && c.key == s.key
    requires TablesOk(c, st.info, st.newTab, st.triedTab, {})
    ensures LoadedFrom(c, s, st)
  {
    hide Loaded, Places, UBuckets, TablesOk, RandomOk, IdsOk, CountsOk, Stays, Unplaced, LastIds;
    var recs, gone := Loaded(c, s), Unplaced(info2);
    UnplacedAre(c, s, info1, info2, st.triedTab, loose);
    forall i: Nid ensures i in st.info <==> 0 <= i < |recs| && Stays(c, s, i) {
      assert i in st.info <==> i in info2 - gone;
      assert i in info2 <==> i in info1;
    }
    forall i | i in st.info ensures IsRec(st.info[i], recs[i], i >= s.nNew) {
      assert i in info2 - gone;
      assert info1[i] == FromRec(recs[i]).(randomPos := i, inTried := i >= s.nNew);
    }
    forall a ensures a in AddrsOf(info2, gone) <==> a in PrunedAddrs(c, s) {
      SameAddrs(c, s, info1, info2, a);
    }
  }

  lemma SameAddrs(c: Config, s: Stream, info1: map<Nid, Info>, info2: map<Nid, Info>, a: NetAddr)
    requires Complete(s, UBuckets(s)) && AsLoaded(info1, Loaded(c, s), s.nNew) && OnlyCounts(info1, info2, s.nNew)
    requires forall i {:trigger i in Unplaced(info2)} ::
               i in Unplaced(info2) <==> 0 <= i < |Loaded(c, s)| && !Stays(c, s, i)
    ensures a in AddrsOf(info2, Unplaced(info2)) <==> a in PrunedAddrs(c, s)
  {
    hide Loaded, UBuckets, Stays;
    var recs := Loaded(c, s);
    forall i | i in info2 ensures 0 <= i < |recs| && info2[i].service == recs[i].service {
      assert i in info1;
      assert info1[i] == FromRec(recs[i]).(randomPos := i, inTried := i >= s.nNew);
    }
    if a in PrunedAddrs(c, s) {
      var i :| 0 <= i < |recs| && !Stays(c, s, i) && recs[i].service.addr == a;
      assert i in Unplaced(info2);
    }
    if a in AddrsOf(info2, Unplaced(info2)) {
      var i :| i in info2 && i in Unplaced(info2) && info2[i].service.addr == a;
      assert 0 <= i < |recs| && !Stays(c, s, i);
    }
  }

  /** Replaces the manager's content by a stored one and checks it. Every accepted stream loads to
      the state it stands for; the check passes exactly if the stream loads clean, and the manager
      is consistent exactly if the loaded addresses are routable as well. A stream written from a
      consistent manager with the same asmap is restored without loss. */
  method Unserialize(am: AddrMan, s: Stream, scratchKey: int) returns (ok: bool, code: int)
    requires am.Shape() && scratchKey != 0
    modifies am, am.vvNew, am.vvTried
    ensures ok <==> Acceptable(s, UBuckets(s))
    ensures am.triedCollisions == old(am.triedCollisions)
    ensures ok ==>
              var c := Config(am.env, s.key, am.asmap);
              && am.Cfg() == c && LoadedFrom(c, s, am.View()) && WellPlaced(c, s, am.View())
              && (code == 0 <==> LoadsClean(c, s))
              && (am.Valid() <==> LoadsClean(c, s) && StayingRoutable(c, s))
    ensures forall src | Written(Config(am.env, s.key, am.asmap), src, s) ::
              ok && code == 0 && am.Valid() && RestoredFrom(src, am.View())
  {
    hide TableOf, Loading, LoadedFrom, LoadsClean, StayingRoutable, Inv, StoredFrom, RestoredFrom, UBuckets, CheckOk,
      WellPlaced,
      RandomOk, AddrOk, IdsOk, StatsOk, TablesOk, NewIds, TriedIds;
    am.Clear(scratchKey);
    code := 0;
    ghost var c := Config(am.env, s.key, am.asmap);
    var nUBuckets;
    ok, nUBuckets := ReadHeader(s);
    if ok {
      Load(am, s, nUBuckets);
      code := Check(am);
      LoadedIff(c, s, am.View());
      LoadedPlaces(c, s, am.View());
      am.ValidIsInv();
    }
    forall src | Written(c, src, s) ensures ok && code == 0 && am.Valid() && RestoredFrom(src, am.View()) {
      WrittenIsClean(c, src, s);
      Restored(c, src, s, am.View());
    }
  }

  /** Tests the header, and says how many buckets the stream has. A stream that ends early is refused too. */
  method ReadHeader(s: Stream) returns (ok: bool, nUBuckets: int)
    ensures ok <==> Acceptable(s, UBuckets(s))
    ensures ok ==> nUBuckets == UBuckets(s)
  {
    nUBuckets := 0;
    if s.format > FORMAT_V3_BIP155 {
      return false, 0;
    }
    if s.keySize != 32 {
      return false, 0;
    }
    nUBuckets := s.nUBuckets;
    if s.format >= FORMAT_V1_DETERMINISTIC {
      nUBuckets := FlipBit30(nUBuckets);
    }
    if s.nNew < 0 || s.nNew > NEW_BUCKET_COUNT * BUCKET_SIZE {
      return false, 0;
    }
    if s.nTried < 0 || s.nTried > TRIED_BUCKET_COUNT * BUCKET_SIZE {
      return false, 0;
    }
    ok := s.nNew <= |s.newRecs| && s.nTried <= |s.triedRecs| && nUBuckets <= |s.buckets|;
  }

  /** Loads an accepted stream into an empty manager. */
  method Load(am: AddrMan, s: Stream, nUBuckets: int)
    requires am.Shape() && Acceptable(s, UBuckets(s)) && nUBuckets == UBuckets(s)
    requires am.mapInfo == map[] && am.mapAddr == map[] && am.vRandom == [] && am.nIdCount == 0
    requires am.NewTab() == map[] && am.TriedTab() == map[]
    modifies am`nKey, am`nNew, am`nTried, am`nIdCount, am`mapInfo, am`mapAddr, am`vRandom, am.vvNew, am.vvTried
    ensures am.Cfg() == Config(am.env, s.key, am.asmap) && LoadedFrom(am.Cfg(), s, am.View())
  {
    hide TableOf, NewIds, TriedIds, TablesOk, RandomOk, IdsOk, Loading, AsLoaded, Loaded, LastIds, OnlyCounts, Places,
      Unplaced, Without, LoadedFrom, UBuckets;
    am.nKey, am.nNew, am.nTried := s.key, s.nNew, s.nTried;
    LoadNew(am, s);
    ghost var loose := am.mapInfo.Keys;
    LooseInRange(am, loose);
    var lost := LoadTried(am, s);
    am.nTried := am.nTried - lost;
    ghost var info1, recs := am.mapInfo, Loaded(am.Cfg(), s);
    var entryToBucket := ReadBuckets(s, nUBuckets);
    var usable := s.format >= FORMAT_V2_ASMAP && nUBuckets == NEW_BUCKET_COUNT
      && AsmapVersion(Config(am.env, am.nKey, am.asmap)) == s.asmapVersion;
    NewFirst(am.Cfg(), s);
    PlaceNew(am, s, nUBuckets, entryToBucket, usable, loose, recs);
    ghost var info2 := am.mapInfo;
    LoadingTables(am, loose);
    Prune(am, loose);
    LoadingTables(am, {});
    StagesLoad(am.Cfg(), s, info1, info2, am.View(), loose);
  }

  lemma NewFirst(c: Config, s: Stream)
    requires 0 <= s.nNew <= |s.newRecs| && 0 <= s.nTried <= |s.triedRecs|
    ensures s.newRecs[..s.nNew] <= Loaded(c, s)
  {
    hide Entered;
  }

  lemma LooseInRange(am: AddrMan, loose: set<Nid>)
    requires Loading(am, loose) && loose <= am.mapInfo.Keys
    ensures 0 <= am.nIdCount && forall id | id in loose :: 0 <= id < am.nIdCount
  {
    hide TableOf, RandomOk, TablesOk;
  }

  lemma LoadingTables(am: AddrMan, loose: set<Nid>)
    requires Loading(am, loose)
    ensures TablesOk(am.Cfg(), am.mapInfo, am.NewTab(), am.TriedTab(), loose)
    ensures RandomOk(am.mapInfo, am.vRandom) && IdsOk(am.mapInfo, am.nIdCount)
  {
    hide TableOf, RandomOk, TablesOk, IdsOk;
  }
}
