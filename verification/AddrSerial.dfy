/** Saving the address manager and loading it again. */
module AddrSerial {
  import opened AddrTypes
  import opened AddrManager
  import AddrCheck

  const FORMAT_V1_DETERMINISTIC: nat := 1
  const FORMAT_V2_ASMAP: nat := 2
  const FORMAT_V3_BIP155: nat := 3
  const BIT30: nat := 0x4000_0000

  /** The part of an entry that is stored. */
  datatype Rec = Rec(service: Service, time: int, services: set<nat>, source: NetAddr, lastSuccess: int, attempts: int)

  function ToRec(i: Info): Rec
  {
    Rec(i.service, i.time, i.services, i.source, i.lastSuccess, i.attempts)
  }

  function FromRec(r: Rec): Info
  {
    Info(r.service, r.time, r.services, r.source, 0, 0, r.lastSuccess, r.attempts, 0, false, -1)
  }

  /** The fields of the stored form, in stream order. */
  datatype Stream = Stream(
    format: nat, keySize: int, key: int, nNew: int, nTried: int, nUBuckets: int,
    newRecs: seq<Rec>, triedRecs: seq<Rec>, buckets: seq<seq<int>>, asmapVersion: int)

  /** Exclusive or of a 32-bit integer with 2^30. */
  function FlipBit30(n: int): (r: int)
    ensures 0 <= n < 0x4000_0000 ==> r == n + 0x4000_0000
    ensures 0x4000_0000 <= n < 0x8000_0000 ==> r == n - 0x4000_0000
    ensures -0x4000_0000 <= n < 0 ==> r == n - 0x4000_0000
    ensures -0x8000_0000 <= n < -0x4000_0000 ==> r == n + 0x4000_0000
  {
    if n % (2 * BIT30) >= BIT30 then n - BIT30 else n + BIT30
  }

  function AsmapVersion(c: Config): int
  {
    if |c.asmap| != 0 then c.env.asmapHash(c.asmap) else 0
  }

  // ---- The order in which entries are written -----------------------------

  /** Ids below n with references, in increasing order. */
  ghost function NewOrder(info: map<Nid, Info>, n: int): seq<Nid>
  {
    if n <= 0 then [] else NewOrder(info, n - 1) + (if n - 1 in info && info[n - 1].refCount != 0 then [n - 1] else [])
  }

  /** Ids below n in the tried table, in increasing order. */
  ghost function TriedOrder(info: map<Nid, Info>, n: int): seq<Nid>
  {
    if n <= 0 then [] else TriedOrder(info, n - 1) + (if n - 1 in info && info[n - 1].inTried then [n - 1] else [])
  }

  ghost function RecOf(info: map<Nid, Info>, id: Nid): Rec
  {
    ToRec(if id in info then info[id] else EmptyInfo())
  }

  ghost function Recs(info: map<Nid, Info>, ids: seq<Nid>): seq<Rec>
  {
    seq(|ids|, i requires 0 <= i < |ids| => RecOf(info, ids[i]))
  }

  ghost predicate Increasing(ids: seq<Nid>, n: nat)
  {
    && (forall i | 0 <= i < |ids| :: 0 <= ids[i] < n)
    && (forall i, j | 0 <= i < j < |ids| :: ids[i] < ids[j])
  }

  lemma {:induction false} NewOrderIs(info: map<Nid, Info>, n: nat)
    ensures Increasing(NewOrder(info, n), n)
    ensures forall i | 0 <= i < |NewOrder(info, n)| ::
      NewOrder(info, n)[i] in info && info[NewOrder(info, n)[i]].refCount != 0
    ensures forall id | 0 <= id < n && id in info && info[id].refCount != 0 :: exists i ::
      0 <= i < |NewOrder(info, n)| && NewOrder(info, n)[i] == id
  {
    hide NewOrder;
    NewOrderStep(info, if n > 0 then n - 1 else 0);
    if n > 0 {
      NewOrderIs(info, n - 1);
    }
    forall id | 0 <= id < n && id in info && info[id].refCount != 0
      ensures exists i :: 0 <= i < |NewOrder(info, n)| && NewOrder(info, n)[i] == id
    {
      var i := NewOrderHas(info, n, id);
    }
  }

  lemma {:induction false} NewOrderHas(info: map<Nid, Info>, n: nat, id: Nid) returns (i: nat)
    requires 0 <= id < n && id in info && info[id].refCount != 0
    ensures i < |NewOrder(info, n)| && NewOrder(info, n)[i] == id
  {
    hide NewOrder;
    NewOrderStep(info, n - 1);
    if id == n - 1 {
      i := |NewOrder(info, n)| - 1;
    } else {
      i := NewOrderHas(info, n - 1, id);
    }
  }

  lemma {:induction false} TriedOrderIs(info: map<Nid, Info>, n: nat)
    ensures Increasing(TriedOrder(info, n), n)
    ensures forall i | 0 <= i < |TriedOrder(info, n)| ::
      TriedOrder(info, n)[i] in info && info[TriedOrder(info, n)[i]].inTried
    ensures forall id | 0 <= id < n && id in info && info[id].inTried :: exists i ::
      0 <= i < |TriedOrder(info, n)| && TriedOrder(info, n)[i] == id
  {
    hide TriedOrder;
    TriedOrderStep(info, if n > 0 then n - 1 else 0);
    if n > 0 {
      TriedOrderIs(info, n - 1);
    }
    forall id | 0 <= id < n && id in info && info[id].inTried
      ensures exists i :: 0 <= i < |TriedOrder(info, n)| && TriedOrder(info, n)[i] == id
    {
      var i := TriedOrderHas(info, n, id);
    }
  }

  lemma {:induction false} TriedOrderHas(info: map<Nid, Info>, n: nat, id: Nid) returns (i: nat)
    requires 0 <= id < n && id in info && info[id].inTried
    ensures i < |TriedOrder(info, n)| && TriedOrder(info, n)[i] == id
  {
    hide TriedOrder;
    TriedOrderStep(info, n - 1);
    if id == n - 1 {
      i := |TriedOrder(info, n)| - 1;
    } else {
      i := TriedOrderHas(info, n - 1, id);
    }
  }

  /** The two orders have as many ids as the counters say. */
  lemma OrderSizes(c: Config, st: State)
    requires Inv(c, st)
    ensures |NewOrder(st.info, st.nIdCount)| == st.nNew && |TriedOrder(st.info, st.nIdCount)| == st.nTried
  {
    hide NewOrder, TriedOrder, TablesOk;
    NewOrderIs(st.info, st.nIdCount);
    TriedOrderIs(st.info, st.nIdCount);
    NewHaveReferences(c, st);
    AddrCheck.DistinctCount(NewOrder(st.info, st.nIdCount), NewIds(st.info));
    AddrCheck.DistinctCount(TriedOrder(st.info, st.nIdCount), TriedIds(st.info));
  }

  /** In a consistent state the referenced entries are exactly the new ones. */
  lemma NewHaveReferences(c: Config, st: State)
    requires Inv(c, st)
    ensures forall id | id in st.info :: st.info[id].refCount != 0 <==> !st.info[id].inTried
  {
    forall id | id in st.info ensures st.info[id].refCount != 0 <==> !st.info[id].inTried {
      assert EntryOk(c, st.info[id], id, st.newTab, st.triedTab, id in {});
    }
  }

  /** What a stored state looks like. */
  ghost predicate StoredFrom(c: Config, st: State, s: Stream)
    requires IdsOk(st.info, st.nIdCount)
  {
    var news, trieds := NewOrder(st.info, st.nIdCount), TriedOrder(st.info, st.nIdCount);
    && s.format == 3 && s.keySize == 32 && s.key == c.key
    && s.nNew == st.nNew == |news| && s.nTried == st.nTried == |trieds|
    && s.nUBuckets == 0x4000_0400
    && s.newRecs == Recs(st.info, news) && s.triedRecs == Recs(st.info, trieds)
    && s.asmapVersion == (if c.asmap == [] then 0 else c.env.asmapHash(c.asmap))
    && |s.buckets| == NEW_BUCKET_COUNT
    && (forall b | 0 <= b < NEW_BUCKET_COUNT :: BucketStored(news, st.newTab, b, s.buckets[b]))
  }

  /** A stored bucket lists the indices of exactly the ids in that bucket. */
  ghost predicate BucketStored(news: seq<Nid>, newTab: Table, b: int, indices: seq<int>)
  {
    && (forall k | 0 <= k < |indices| :: 0 <= indices[k] < |news| && HeldIn(newTab, b, news[indices[k]]))
    && (forall s | s in newTab && s.bucket == b :: exists k ::
      0 <= k < |indices| && 0 <= indices[k] < |news| && news[indices[k]] == newTab[s])
  }

  ghost predicate HeldIn(newTab: Table, b: int, id: Nid)
  {
    exists s :: s in newTab && s.bucket == b && newTab[s] == id
  }

  // ---- Saving -------------------------------------------------------------

  method Serialize(am: AddrMan) returns (s: Stream)
    requires am.Valid()
    ensures IdsOk(am.mapInfo, am.nIdCount) && StoredFrom(am.Cfg(), am.View(), s)
  {
    hide TableOf, TablesOk, RandomOk, AddrOk, StatsOk, NewIds, TriedIds, BucketStored;
    am.ValidIsInv();
    OrderSizes(am.Cfg(), am.View());
    var newRecs, unkIds := WriteNew(am);
    var triedRecs := WriteTried(am);
    var buckets := WriteBuckets(am, unkIds);
    s := Stream(FORMAT_V3_BIP155, 32, am.nKey, am.nNew, am.nTried, FlipBit30(NEW_BUCKET_COUNT),
                newRecs, triedRecs, buckets, AsmapVersion(Config(am.env, am.nKey, am.asmap)));
  }

  method WriteNew(am: AddrMan) returns (recs: seq<Rec>, unkIds: map<Nid, int>)
    requires am.Valid()
    ensures IdsOk(am.mapInfo, am.nIdCount)
    ensures var news := NewOrder(am.mapInfo, am.nIdCount); recs == Recs(am.mapInfo, news)
    ensures IndexOf(am.mapInfo, am.nIdCount, unkIds)
  {
    hide TableOf, TablesOk, RandomOk, AddrOk, StatsOk, NewIds, TriedIds, NewOrder, IndexOf, Recs, RecOf;
    am.ValidIsInv();
    ghost var st := am.View();
    OrderSizes(am.Cfg(), st);
    recs, unkIds := [], map[];
    NothingWritten(am.mapInfo);
    var nIds := 0;
    for id := 0 to am.nIdCount
      invariant nIds == |NewOrder(am.mapInfo, id)|
      invariant recs == Recs(am.mapInfo, NewOrder(am.mapInfo, id))
      invariant IndexOf(am.mapInfo, id, unkIds)
    {
      NewWritten(am.mapInfo, id, unkIds);
      NewOrderStep(am.mapInfo, id);
      NewOrderGrows(am.mapInfo, id + 1, am.nIdCount);
      if id in am.mapInfo {
        unkIds := unkIds[id := nIds];
        if am.mapInfo[id].refCount != 0 {
          assert nIds != am.nNew;
          recs := recs + [ToRec(am.mapInfo[id])];
          nIds := nIds + 1;
        }
      }
    }
  }

  /** Referenced ids below n are mapped to their index in the written order. */
  ghost predicate IndexOf(info: map<Nid, Info>, n: nat, unkIds: map<Nid, int>)
  {
    var news := NewOrder(info, n);
    forall id | 0 <= id < n && id in info && info[id].refCount != 0 ::
      id in unkIds && 0 <= unkIds[id] < |news| && news[unkIds[id]] == id
  }

  lemma NothingWritten(info: map<Nid, Info>)
    ensures NewOrder(info, 0) == [] && Recs(info, []) == [] && IndexOf(info, 0, map[])
  {
  }

  /** What reading one more id adds to the records and the index. */
  lemma NewWritten(info: map<Nid, Info>, id: nat, unkIds: map<Nid, int>)
    requires IndexOf(info, id, unkIds)
    ensures Recs(info, NewOrder(info, id + 1)) ==
      Recs(info, NewOrder(info, id)) + (if id in info && info[id].refCount != 0 then [ToRec(info[id])] else [])
    ensures id !in info ==> IndexOf(info, id + 1, unkIds)
    ensures id in info ==> IndexOf(info, id + 1, unkIds[id := |NewOrder(info, id)|])
  {
    hide NewOrder;
    NewOrderStep(info, id);
  }

  lemma NewOrderStep(info: map<Nid, Info>, n: nat)
    ensures NewOrder(info, 0) == []
    ensures NewOrder(info, n + 1) == NewOrder(info, n) + (if n in info && info[n].refCount != 0 then [n] else [])
  {
  }

  lemma {:induction false} NewOrderGrows(info: map<Nid, Info>, n: nat, m: nat)
    requires n <= m
    ensures |NewOrder(info, n)| <= |NewOrder(info, m)|
    decreases m
  {
    if n < m {
      NewOrderGrows(info, n, m - 1);
    }
  }

  lemma TriedOrderStep(info: map<Nid, Info>, n: nat)
    ensures TriedOrder(info, 0) == []
    ensures TriedOrder(info, n + 1) == TriedOrder(info, n) + (if n in info && info[n].inTried then [n] else [])
  {
  }

  lemma {:induction false} TriedOrderGrows(info: map<Nid, Info>, n: nat, m: nat)
    requires n <= m
    ensures |TriedOrder(info, n)| <= |TriedOrder(info, m)|
    decreases m
  {
    if n < m {
      TriedOrderGrows(info, n, m - 1);
    }
  }

  method WriteTried(am: AddrMan) returns (recs: seq<Rec>)
    requires am.Valid()
    ensures IdsOk(am.mapInfo, am.nIdCount)
    ensures var trieds := TriedOrder(am.mapInfo, am.nIdCount); recs == Recs(am.mapInfo, trieds)
  {
    hide TableOf, TablesOk, RandomOk, AddrOk, StatsOk, NewIds, TriedIds, TriedOrder;
    am.ValidIsInv();
    OrderSizes(am.Cfg(), am.View());
    recs := [];
    TriedOrderStep(am.mapInfo, 0);
    var nIds := 0;
    for id := 0 to am.nIdCount
      invariant nIds == |recs|
      invariant var trieds := TriedOrder(am.mapInfo, id); recs == Recs(am.mapInfo, trieds)
    {
      TriedOrderIs(am.mapInfo, id);
      TriedOrderIs(am.mapInfo, id + 1);
      TriedOrderStep(am.mapInfo, id);
      TriedOrderGrows(am.mapInfo, id + 1, am.nIdCount);
      if id in am.mapInfo && am.mapInfo[id].inTried {
        assert nIds != am.nTried;
        recs := recs + [ToRec(am.mapInfo[id])];
        nIds := nIds + 1;
      }
    }
  }

  method WriteBuckets(am: AddrMan, unkIds: map<Nid, int>) returns (buckets: seq<seq<int>>)
    requires am.Valid() && IdsOk(am.mapInfo, am.nIdCount)
    requires IndexOf(am.mapInfo, am.nIdCount, unkIds)
    ensures |buckets| == NEW_BUCKET_COUNT
    ensures forall b | 0 <= b < NEW_BUCKET_COUNT ::
              BucketStored(NewOrder(am.mapInfo, am.nIdCount), am.NewTab(), b, buckets[b])
  {
    hide am.Core, TableOf, NewOrder, BucketStored;
    buckets := [];
    for b := 0 to NEW_BUCKET_COUNT
      invariant |buckets| == b
      invariant forall k | 0 <= k < b :: BucketStored(NewOrder(am.mapInfo, am.nIdCount), am.NewTab(), k, buckets[k])
    {
      var indices := WriteBucket(am, unkIds, b);
      buckets := buckets + [indices];
    }
  }

  method WriteBucket(am: AddrMan, unkIds: map<Nid, int>, b: nat) returns (indices: seq<int>)
    requires am.Valid() && IdsOk(am.mapInfo, am.nIdCount) && b < NEW_BUCKET_COUNT
    requires IndexOf(am.mapInfo, am.nIdCount, unkIds)
    ensures BucketStored(NewOrder(am.mapInfo, am.nIdCount), am.NewTab(), b, indices)
  {
    hide TableOf, TablesOk, RandomOk, AddrOk, StatsOk, NewIds, TriedIds, NewOrder;
    ghost var news, newTab := NewOrder(am.mapInfo, am.nIdCount), am.NewTab();
    indices := [];
    for p := 0 to BUCKET_SIZE
      invariant forall k | 0 <= k < |indices| :: 0 <= indices[k] < |news| && HeldIn(newTab, b, news[indices[k]])
      invariant forall s | s in newTab && s.bucket == b && 0 <= s.pos < p ::
                  exists k :: 0 <= k < |indices| && 0 <= indices[k] < |news| && news[indices[k]] == newTab[s]
    {
      SlotContent(am.vvNew, b, p);
      var id := am.vvNew[b, p];
      ghost var was := indices;
      if id >= 0 {
        ReferencedEntry(am.Cfg(), am.mapInfo, newTab, am.TriedTab(), {}, Slot(b, p));
        assert unkIds[id] < |news|;
        indices := indices + [unkIds[id]];
        assert HeldIn(newTab, b, id);
        assert indices[|was|] == unkIds[id];
      }
      forall s | s in newTab && s.bucket == b && 0 <= s.pos < p + 1
        ensures exists k :: 0 <= k < |indices| && 0 <= indices[k] < |news| && news[indices[k]] == newTab[s]
      {
        if s.pos < p {
          var k :| 0 <= k < |was| && 0 <= was[k] < |news| && news[was[k]] == newTab[s];
          assert indices[k] == was[k];
        } else {
          assert s == Slot(b, p);
        }
      }
    }
    SlotsInRange(am.Cfg(), am.mapInfo, newTab, am.TriedTab());
  }

  lemma SlotsInRange(c: Config, info: map<Nid, Info>, newTab: Table, triedTab: Table)
    requires TablesOk(c, info, newTab, triedTab, {})
    ensures forall s | s in newTab :: 0 <= s.pos < BUCKET_SIZE && 0 <= s.bucket < NEW_BUCKET_COUNT
  {
    forall s | s in newTab ensures 0 <= s.pos < BUCKET_SIZE && 0 <= s.bucket < NEW_BUCKET_COUNT {
      assert FreshSlotOk(c, info, s, newTab[s]);
    }
  }
}
