/** What the stored manager amounts to for its users, and how far one network group can spread. */
module AddrSpread {
  import opened AddrTypes
  import opened AddrManager
  import opened AddrCheck
  import opened AddrSerial
  import opened AddrStream
  import opened AddrRestore
  import opened AddrLoad

  ghost function Services(info: map<Nid, Info>, tried: bool): set<Service>
  {
    set id | id in info && info[id].inTried == tried :: info[id].service
  }

  /** Loading a stored manager loses and invents no address in either table. */
  lemma RestoredAddresses(c: Config, src: State, st: State, tried: bool)
    requires Inv(c, src) && RestoredFrom(src, st)
    ensures Services(st.info, tried) == Services(src.info, tried)
  {
    hide TablesOk, RandomOk, AddrOk, StatsOk, CountsOk, NewOrder, TriedOrder;
    var news, trieds := NewOrder(src.info, src.nIdCount), TriedOrder(src.info, src.nIdCount);
    var order := news + trieds;
    NewOrderIs(src.info, src.nIdCount);
    TriedOrderIs(src.info, src.nIdCount);
    NewHaveReferences(c, src);
    forall id | id in st.info && st.info[id].inTried == tried ensures st.info[id].service in Services(src.info, tried) {
      assert ToRec(st.info[id]) == RecOf(src.info, order[id]);
      assert order[id] == (if id < |news| then news[id] else trieds[id - |news|]);
      assert order[id] in src.info && src.info[order[id]].inTried == tried;
    }
    forall id | id in src.info && src.info[id].inTried == tried
      ensures src.info[id].service in Services(st.info, tried)
    {
      var i := OrderIndex(c, src, id);
      assert ToRec(st.info[i]) == RecOf(src.info, order[i]);
      assert i in st.info && st.info[i].inTried == tried;
    }
  }

  lemma OrderIndex(c: Config, src: State, id: Nid) returns (i: nat)
    requires Inv(c, src) && id in src.info
    ensures var news := NewOrder(src.info, src.nIdCount);
            var order := news + TriedOrder(src.info, src.nIdCount);
            i < |order| && order[i] == id && (i >= |news| <==> src.info[id].inTried)
  {
    hide TablesOk, RandomOk, AddrOk, StatsOk, CountsOk;
    var news := NewOrder(src.info, src.nIdCount);
    NewOrderIs(src.info, src.nIdCount);
    NewHaveReferences(c, src);
    if src.info[id].inTried {
      i := TriedIndex(c, src, id);
    } else {
      i :| 0 <= i < |news| && news[i] == id;
    }
  }

  /** Saves a manager and loads it into a new one that uses the same asmap. */
  method SaveAndLoad(am: AddrMan, scratchKey: int) returns (loaded: AddrMan, ok: bool)
    requires am.Valid() && scratchKey != 0
    ensures ok && fresh(loaded) && loaded.Valid() && loaded.nKey == am.nKey
    ensures RestoredFrom(am.View(), loaded.View())
    ensures forall tried :: Services(loaded.mapInfo, tried) == Services(am.mapInfo, tried)
  {
    hide am.Core, TableOf, RestoredFrom, StoredFrom, Services, LoadedFrom, LoadsClean, StayingRoutable, UBuckets;
    var s := Serialize(am);
    loaded := new AddrMan(am.env, am.asmap, scratchKey);
    am.ValidIsInv();
    loaded.ShapeOf();
    StoredKey(am.Cfg(), am.View(), s);
    ghost var c := Config(loaded.env, s.key, loaded.asmap);
    var code;
    ok, code := Unserialize(loaded, s, scratchKey);
    assert Written(c, am.View(), s);
    forall tried ensures Services(loaded.mapInfo, tried) == Services(am.mapInfo, tried) {
      RestoredAddresses(am.Cfg(), am.View(), loaded.View(), tried);
    }
  }

  lemma StoredKey(c: Config, st: State, s: Stream)
    requires IdsOk(st.info, st.nIdCount) && StoredFrom(c, st, s)
    ensures s.key == c.key
  {
    hide NewOrder, TriedOrder, BucketStored;
  }

  // ---- How far one network group spreads in the tried table ---------------

  /** The tried buckets open to one network group through the first n group hashes. */
  ghost function GroupBuckets(c: Config, group: seq<int>, n: nat): set<int>
  {
    set k | k in Range(n) :: GroupBucket(c, group, k)
  }

  ghost function GroupBucket(c: Config, group: seq<int>, k: int): int
  {
    c.env.cheapHash([KeyItem(c.key), BytesItem(group), NumItem(k)]) % TRIED_BUCKET_COUNT
  }

  ghost function GroupTried(c: Config, info: map<Nid, Info>, group: seq<int>): set<Nid>
  {
    set id | id in info && info[id].inTried && c.env.group(info[id].service.addr, c.asmap) == group
  }

  /** No more than 8 * 64 tried entries ever come from one network group. */
  lemma GroupShare(c: Config, st: State, group: seq<int>)
    requires Inv(c, st)
    ensures |GroupTried(c, st.info, group)| <= TRIED_BUCKETS_PER_GROUP * BUCKET_SIZE
  {
    hide RandomOk, AddrOk, StatsOk, CountsOk, Range, BucketPosition;
    var ids, buckets := GroupTried(c, st.info, group), GroupBuckets(c, group, TRIED_BUCKETS_PER_GROUP);
    var t := map s | s in st.triedTab && st.triedTab[s] in ids :: st.triedTab[s];
    forall id | id in ids ensures id in t.Values {
      assert EntryOk(c, st.info[id], id, st.newTab, st.triedTab, id in {});
      assert t[TriedSlot(c, st.info[id].service)] == id;
    }
    forall s | s in t ensures s in Cells(buckets) {
      assert TriedSlotOk(c, st.info, s, st.triedTab[s]);
      BucketOfGroup(c, st.info[t[s]].service);
      InCells(buckets, s);
    }
    ValuesCard(t, ids, Cells(buckets));
    CellsCard(buckets);
    GroupBucketsCard(c, group, TRIED_BUCKETS_PER_GROUP);
  }

  /** The new buckets open to one group of sources through the first n hashes. */
  ghost function SourceBuckets(c: Config, group: seq<int>, n: nat): set<int>
  {
    set k | k in Range(n) :: SourceBucket(c, group, k)
  }

  ghost function SourceBucket(c: Config, group: seq<int>, k: int): int
  {
    c.env.cheapHash([KeyItem(c.key), BytesItem(group), NumItem(k)]) % 1024
  }

  /** What the sources of one network group announce goes to at most 64 of the 1024 new buckets. */
  lemma SourceShare(c: Config, group: seq<int>) returns (buckets: set<int>)
    ensures |buckets| <= 64
    ensures forall s: Service, source: NetAddr | c.env.group(source, c.asmap) == group ::
              NewBucket(c, s, source) in buckets && 0 <= NewBucket(c, s, source) < 1024
  {
    buckets := SourceBuckets(c, group, 64);
    SourceBucketsCard(c, group, 64);
    forall s: Service, source: NetAddr | c.env.group(source, c.asmap) == group
      ensures NewBucket(c, s, source) in buckets
    {
      var hash1 := c.env.cheapHash([KeyItem(c.key), BytesItem(c.env.group(s.addr, c.asmap)), BytesItem(group)]);
      assert NewBucket(c, s, source) == SourceBucket(c, group, hash1 % 64);
    }
  }

  /** Both groups choose: the bucket depends on the address and the source only through their groups. */
  lemma GroupsChoose(c: Config, s: Service, source: NetAddr, s2: Service, source2: NetAddr)
    requires c.env.group(s.addr, c.asmap) == c.env.group(s2.addr, c.asmap)
    requires c.env.group(source, c.asmap) == c.env.group(source2, c.asmap)
    ensures NewBucket(c, s, source) == NewBucket(c, s2, source2)
  {
  }

  lemma {:induction false} SourceBucketsCard(c: Config, group: seq<int>, n: nat)
    ensures |SourceBuckets(c, group, n)| <= n
  {
    hide SourceBucket;
    if n == 0 {
      assert SourceBuckets(c, group, n) == {};
    } else {
      SourceBucketsCard(c, group, n - 1);
      assert SourceBuckets(c, group, n) == SourceBuckets(c, group, n - 1) + {SourceBucket(c, group, n - 1)};
    }
  }

  lemma BucketOfGroup(c: Config, s: Service)
    ensures TriedBucket(c, s) in GroupBuckets(c, c.env.group(s.addr, c.asmap), TRIED_BUCKETS_PER_GROUP)
  {
    var hash1 := c.env.cheapHash([KeyItem(c.key), BytesItem(ServiceKey(s))]);
    assert TriedBucket(c, s) == GroupBucket(c, c.env.group(s.addr, c.asmap), hash1 % TRIED_BUCKETS_PER_GROUP);
  }

  lemma {:induction false} GroupBucketsCard(c: Config, group: seq<int>, n: nat)
    ensures |GroupBuckets(c, group, n)| <= n
  {
    hide GroupBucket;
    if n == 0 {
      assert GroupBuckets(c, group, n) == {};
    } else {
      GroupBucketsCard(c, group, n - 1);
      assert GroupBuckets(c, group, n) == GroupBuckets(c, group, n - 1) + {GroupBucket(c, group, n - 1)};
    }
  }

  /** All slots of a set of buckets. */
  ghost function Cells(buckets: set<int>): set<Slot>
  {
    set b, p | b in buckets && p in Range(BUCKET_SIZE) :: Slot(b, p)
  }

  lemma InCells(buckets: set<int>, s: Slot)
    ensures s in Cells(buckets) <==> s.bucket in buckets && 0 <= s.pos < BUCKET_SIZE
  {
    assert s == Slot(s.bucket, s.pos);
  }

  lemma {:induction false} CellsCard(buckets: set<int>)
    ensures |Cells(buckets)| == |buckets| * BUCKET_SIZE
    decreases |buckets|
  {
    hide Range, Cells, Row;
    if |buckets| == 0 {
      forall s ensures s !in Cells(buckets) { InCells(buckets, s); }
      assert Cells(buckets) == {};
    } else {
      assert (forall x :: x !in buckets) ==> buckets == {};
      var b :| b in buckets;
      var rest, row := buckets - {b}, Row(b, BUCKET_SIZE);
      CellsCard(rest);
      forall s ensures s in Cells(buckets) <==> s in Cells(rest) + row {
        InCells(buckets, s);
        InCells(rest, s);
      }
      forall s | s in row ensures s !in Cells(rest) { InCells(rest, s); }
      assert Cells(buckets) == Cells(rest) + row;
    }
  }
}
