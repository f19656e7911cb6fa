/** Streams written from a consistent address manager, and what loading them restores. */
module AddrRestore {
  import opened AddrTypes
  import opened AddrManager
  import opened AddrSerial
  import opened AddrCheck
  import opened AddrStream

  // ---- What a stream written from a consistent state has ------------------

  lemma StoredRec(c: Config, src: State, s: Stream, i: nat)
    requires Inv(c, src) && StoredFrom(c, src, s) && i < s.nNew + s.nTried
    ensures |AllRecs(s)| == s.nNew + s.nTried
    ensures var id := (NewOrder(src.info, src.nIdCount) + TriedOrder(src.info, src.nIdCount))[i];
            && id in src.info && AllRecs(s)[i] == ToRec(src.info[id]) && src.info[id].inTried == (i >= s.nNew)
  {
    hide TablesOk, RandomOk, AddrOk, StatsOk, CountsOk;
    NewOrderIs(src.info, src.nIdCount);
    TriedOrderIs(src.info, src.nIdCount);
    NewHaveReferences(c, src);
    if i < s.nNew {
      assert AllRecs(s)[i] == s.newRecs[i];
    } else {
      assert AllRecs(s)[i] == s.triedRecs[i - s.nNew];
    }
  }

  lemma OrderDistinct(c: Config, src: State, i: nat, j: nat)
    requires Inv(c, src)
    requires i < j < |NewOrder(src.info, src.nIdCount)| + |TriedOrder(src.info, src.nIdCount)|
    ensures var order := NewOrder(src.info, src.nIdCount) + TriedOrder(src.info, src.nIdCount); order[i] != order[j]
  {
    hide TablesOk, RandomOk, AddrOk, StatsOk, CountsOk;
    NewOrderIs(src.info, src.nIdCount);
    TriedOrderIs(src.info, src.nIdCount);
    NewHaveReferences(c, src);
    var news := NewOrder(src.info, src.nIdCount);
    var trieds := TriedOrder(src.info, src.nIdCount);
    if i < |news| <= j {
      assert src.info[news[i]].refCount != 0 && src.info[trieds[j - |news|]].inTried;
    }
  }

  lemma StoredIsSane(c: Config, src: State, s: Stream)
    requires Inv(c, src) && StoredFrom(c, src, s)
    ensures Sane(c.env, s)
  {
    hide TablesOk, RandomOk, CountsOk, NewOrder, TriedOrder;
    var order := NewOrder(src.info, src.nIdCount) + TriedOrder(src.info, src.nIdCount);
    var recs := AllRecs(s);
    forall i | 0 <= i < |recs| ensures RecOk(recs[i], i >= s.nNew) && c.env.IsRoutable(recs[i].service.addr) {
      StoredRec(c, src, s, i);
    }
    forall i, j | 0 <= i < j < |recs| ensures recs[i].service.addr != recs[j].service.addr {
      StoredRec(c, src, s, i);
      StoredRec(c, src, s, j);
      OrderDistinct(c, src, i, j);
      assert src.byAddr[src.info[order[i]].service.addr] == order[i];
    }
  }

  lemma StoredTriedFit(c: Config, src: State, s: Stream)
    requires Inv(c, src) && StoredFrom(c, src, s)
    ensures TriedFit(c, s.triedRecs[..s.nTried])
  {
    hide RandomOk, AddrOk, CountsOk, TriedSlot, NewOrder, TriedOrder;
    var trieds, recs := TriedOrder(src.info, src.nIdCount), s.triedRecs[..s.nTried];
    TriedOrderIs(src.info, src.nIdCount);
    forall i | 0 <= i < |recs| ensures c.env.isValid(recs[i].service.addr)
      && recs[i].service == src.info[trieds[i]].service
      && EntryOk(c, src.info[trieds[i]], trieds[i], src.newTab, src.triedTab, trieds[i] in {})
    {
      assert recs[i] == RecOf(src.info, trieds[i]);
    }
    forall i, j | 0 <= i < j < |recs| ensures TriedSlot(c, recs[i].service) != TriedSlot(c, recs[j].service) {
      assert recs[i].service == src.info[trieds[i]].service && recs[j].service == src.info[trieds[j]].service;
      assert EntryOk(c, src.info[trieds[i]], trieds[i], src.newTab, src.triedTab, trieds[i] in {});
      assert EntryOk(c, src.info[trieds[j]], trieds[j], src.newTab, src.triedTab, trieds[j] in {});
    }
  }

  /** A stored new entry's bucket leads back to a slot it held. */
  lemma StoredHome(c: Config, src: State, s: Stream, i: nat)
    requires Inv(c, src) && StoredFrom(c, src, s) && i < s.nNew
    ensures var t := NewSlot(c, HomeOf(s, NEW_BUCKET_COUNT, i), s.newRecs[i].service);
            t in src.newTab && src.newTab[t] == NewOrder(src.info, src.nIdCount)[i]
  {
    hide RandomOk, AddrOk, CountsOk, StatsOk, BucketPosition, NewOrder, TriedOrder, TablesOk;
    var news := NewOrder(src.info, src.nIdCount);
    NewOrderIs(src.info, src.nIdCount);
    NewHaveReferences(c, src);
    var id := news[i];
    var w := SomeSlot(c, src.info, src.newTab, src.triedTab, id);
    assert BucketStored(news, src.newTab, w.bucket, s.buckets[w.bucket]);
    var k :| 0 <= k < |s.buckets[w.bucket]| && 0 <= s.buckets[w.bucket][k] < |news|
      && news[s.buckets[w.bucket][k]] == src.newTab[w];
    assert s.buckets[w.bucket][k] == i;
    LastBucketLists(s, NEW_BUCKET_COUNT, i, w.bucket);
    var b := LastBucket(s, NEW_BUCKET_COUNT, i);
    assert BucketStored(news, src.newTab, b, s.buckets[b]);
    var k' :| 0 <= k' < |s.buckets[b]| && s.buckets[b][k'] == i;
    assert HeldIn(src.newTab, b, id);
    var u :| u in src.newTab && u.bucket == b && src.newTab[u] == id;
    SlotPlaced(c, src, u);
    assert s.newRecs[i] == RecOf(src.info, id);
  }

  lemma SlotPlaced(c: Config, st: State, u: Slot)
    requires TablesOk(c, st.info, st.newTab, st.triedTab, {}) && u in st.newTab
    ensures FreshSlotOk(c, st.info, u, st.newTab[u])
  {
  }

  lemma StoredHomesFit(c: Config, src: State, s: Stream)
    requires Inv(c, src) && StoredFrom(c, src, s)
    ensures NEW_BUCKET_COUNT <= |s.buckets| && HomesFit(c, s, NEW_BUCKET_COUNT)
  {
    hide Inv, NewSlot, NewOrder, HomeOf, TriedOrder, BucketStored;
    StoredCounts(c, src, s);
    forall i, j | 0 <= i < j < s.nNew && j < |s.newRecs|
      ensures HomeSlot(c, s, NEW_BUCKET_COUNT, i) != HomeSlot(c, s, NEW_BUCKET_COUNT, j)
    {
      StoredHome(c, src, s, i);
      StoredHome(c, src, s, j);
    }
  }

  lemma StoredCounts(c: Config, src: State, s: Stream)
    requires Inv(c, src) && StoredFrom(c, src, s)
    ensures 0 <= s.nNew == |NewOrder(src.info, src.nIdCount)| == |s.newRecs|
    ensures 0 <= s.nTried == |TriedOrder(src.info, src.nIdCount)| == |s.triedRecs|
    ensures var news := NewOrder(src.info, src.nIdCount);
            forall i, j | 0 <= i < j < s.nNew :: news[i] != news[j]
  {
    NewOrderIs(src.info, src.nIdCount);
  }

  /** There are not more entries than slots, so the stored counts are within the limits. */
  lemma StoredIsAcceptable(c: Config, src: State, s: Stream)
    requires Inv(c, src) && StoredFrom(c, src, s)
    ensures UBuckets(s) == NEW_BUCKET_COUNT && Acceptable(s, NEW_BUCKET_COUNT)
  {
    hide RandomOk, AddrOk, StatsOk, TablesOk, NewOrder, TriedOrder, BucketStored, Grid, SlotsOf;
    SlotsFromInv(c, src);
    TablesInGrid(c, src);
    GridCard(NEW_BUCKET_COUNT, BUCKET_SIZE);
    GridCard(TRIED_BUCKET_COUNT, BUCKET_SIZE);
    NewIdsHeld(c, src);
    ValuesCard(src.newTab, NewIds(src.info), Grid(NEW_BUCKET_COUNT, BUCKET_SIZE));
    ValuesCard(src.triedTab, TriedIds(src.info), Grid(TRIED_BUCKET_COUNT, BUCKET_SIZE));
    StoredCounts(c, src, s);
  }

  lemma NewIdsHeld(c: Config, src: State)
    requires Inv(c, src)
    ensures NewIds(src.info) <= src.newTab.Values
  {
    hide RandomOk, AddrOk, StatsOk, TablesOk, CountsOk;
    forall id | id in NewIds(src.info) ensures id in src.newTab.Values {
      var w := SomeSlot(c, src.info, src.newTab, src.triedTab, id);
    }
  }

  lemma TablesInGrid(c: Config, src: State)
    requires Inv(c, src)
    ensures src.newTab.Keys <= Grid(NEW_BUCKET_COUNT, BUCKET_SIZE)
      && src.triedTab.Keys <= Grid(TRIED_BUCKET_COUNT, BUCKET_SIZE)
  {
    hide RandomOk, AddrOk, StatsOk, CountsOk, BucketPosition, TriedBucket;
    forall t | t in src.newTab ensures t in Grid(NEW_BUCKET_COUNT, BUCKET_SIZE) {
      assert FreshSlotOk(c, src.info, t, src.newTab[t]);
    }
    forall t | t in src.triedTab ensures t in Grid(TRIED_BUCKET_COUNT, BUCKET_SIZE) {
      assert TriedSlotOk(c, src.info, t, src.triedTab[t]);
    }
  }

  lemma {:induction false} ValuesCard(t: Table, ids: set<Nid>, grid: set<Slot>)
    requires ids <= t.Values && t.Keys <= grid
    ensures |ids| <= |grid|
    decreases |ids|
  {
    if |ids| > 0 {
      assert (forall x :: x !in ids) ==> ids == {};
      var id :| id in ids;
      var s :| s in t && t[s] == id;
      var t' := map u | u in t && t[u] != id :: t[u];
      forall x | x in ids - {id} ensures x in t'.Values {
        var u :| u in t && t[u] == x;
        assert t'[u] == x;
      }
      ValuesCard(t', ids - {id}, grid - {s});
    }
  }

  ghost function Row(b: int, cols: nat): (r: set<Slot>)
    ensures |r| == cols && forall s :: s in r <==> s.bucket == b && 0 <= s.pos < cols
  {
    if cols == 0 then {} else Row(b, cols - 1) + {Slot(b, cols - 1)}
  }

  lemma GridStep(rows: nat, cols: nat)
    requires rows > 0
    ensures Grid(rows, cols) == Grid(rows - 1, cols) + Row(rows - 1, cols)
      && Grid(rows - 1, cols) !! Row(rows - 1, cols)
  {
    hide Row;
    var row := Row(rows - 1, cols);
    forall s ensures s in Grid(rows, cols) <==> s in Grid(rows - 1, cols) + row {
      InGrid(rows, cols, s);
      InGrid(rows - 1, cols, s);
    }
    forall s | s in Grid(rows - 1, cols) ensures s !in row {
      InGrid(rows - 1, cols, s);
    }
  }

  lemma InGrid(rows: int, cols: int, s: Slot)
    ensures s in Grid(rows, cols) <==> 0 <= s.bucket < rows && 0 <= s.pos < cols
  {
    assert s == Slot(s.bucket, s.pos);
  }

  lemma {:induction false} GridCard(rows: nat, cols: nat)
    ensures |Grid(rows, cols)| == rows * cols
  {
    hide Row;
    if rows > 0 {
      GridCard(rows - 1, cols);
      GridStep(rows, cols);
      assert (rows - 1) * cols + cols == rows * cols;
    } else {
      assert Grid(rows, cols) == {};
    }
  }

  // ---- The whole round trip -----------------------------------------------

  /** Everything stored is back under new consecutive ids: the same records in the same tables, each
      tried entry in its slot and each new entry in exactly one of the slots it held. */
  ghost predicate RestoredFrom(src: State, st: State)
  {
    var news := NewOrder(src.info, src.nIdCount);
    var order := news + TriedOrder(src.info, src.nIdCount);
    && st.nNew == src.nNew == |news| && st.nTried == src.nTried && st.nNew + st.nTried == |order|
    && Dense(st.info, |order|)
    && (forall i | 0 <= i < |order| ::
      ToRec(st.info[i]) == RecOf(src.info, order[i]) && st.info[i].inTried == (i >= |news|))
    && (forall i | 0 <= i < |news| :: st.info[i].refCount == 1)
    && (forall t | t in st.newTab ::
      t in src.newTab && 0 <= st.newTab[t] < |news| && order[st.newTab[t]] == src.newTab[t])
    && st.triedTab.Keys == src.triedTab.Keys
    && (forall t | t in st.triedTab :: 0 <= st.triedTab[t] < |order| && order[st.triedTab[t]] == src.triedTab[t])
  }

  /** The stream was written from a consistent state with the same key and asmap. */
  ghost predicate Written(c: Config, src: State, s: Stream)
  {
    Inv(c, src) && StoredFrom(c, src, s)
  }

  lemma StoredUsable(c: Config, src: State, s: Stream)
    requires Inv(c, src) && StoredFrom(c, src, s)
    ensures Usable(c, s, NEW_BUCKET_COUNT)
  {
    hide Inv, NewOrder, TriedOrder, BucketStored;
  }

  /** Each stored tried entry has a valid address and a slot of its own. */
  ghost predicate TriedFit(c: Config, recs: seq<Rec>)
  {
    && (forall i | 0 <= i < |recs| :: c.env.isValid(recs[i].service.addr))
    && (forall i, j | 0 <= i < j < |recs| :: TriedSlot(c, recs[i].service) != TriedSlot(c, recs[j].service))
  }

  lemma {:induction false} AllEnter(c: Config, recs: seq<Rec>)
    requires TriedFit(c, recs)
    ensures Entered(c, recs) == recs
  {
    hide TriedSlot;
    if recs != [] {
      var init, last := recs[..|recs| - 1], recs[|recs| - 1];
      AllEnter(c, init);
      assert recs == init + [last];
      assert !SlotTaken(c, init, TriedSlot(c, last.service)) && c.env.isValid(last.service.addr);
    }
  }

  ghost function HomeSlot(c: Config, s: Stream, nUBuckets: int, i: nat): Slot
    requires i < |s.newRecs| && nUBuckets <= |s.buckets|
  {
    NewSlot(c, HomeOf(s, nUBuckets, i), s.newRecs[i].service)
  }

  /** The stored buckets give every new entry a slot of its own. */
  ghost predicate HomesFit(c: Config, s: Stream, nUBuckets: int)
    requires nUBuckets <= |s.buckets|
  {
    forall i, j | 0 <= i < j < s.nNew && j < |s.newRecs| :: HomeSlot(c, s, nUBuckets, i) != HomeSlot(c, s, nUBuckets, j)
  }

  /** The first n new entries, and nothing else, hold the slots of their stored buckets. */
  ghost predicate Placed(c: Config, s: Stream, nUBuckets: int, newTab: Table, n: nat)
    requires n <= |s.newRecs| && nUBuckets <= |s.buckets|
  {
    && (forall i | 0 <= i < n ::
          HomeSlot(c, s, nUBuckets, i) in newTab && newTab[HomeSlot(c, s, nUBuckets, i)] == i)
    && (forall t | t in newTab :: 0 <= newTab[t] < n && t == HomeSlot(c, s, nUBuckets, newTab[t]))
  }

  lemma {:induction false} AllPlaced(c: Config, s: Stream, nUBuckets: int, n: nat)
    requires n <= s.nNew <= |s.newRecs| && nUBuckets <= |s.buckets|
    requires HomesFit(c, s, nUBuckets) && Usable(c, s, nUBuckets)
    ensures Placed(c, s, nUBuckets, Places(c, s, nUBuckets, n), n)
  {
    hide HomeOf, NewSlot, NewBucket, Usable;
    if n > 0 {
      AllPlaced(c, s, nUBuckets, n - 1);
      var tab := Places(c, s, nUBuckets, n - 1);
      var t := HomeSlot(c, s, nUBuckets, n - 1);
      forall u | u in tab ensures u != t {
        assert HomeSlot(c, s, nUBuckets, tab[u]) != t;
      }
      assert Places(c, s, nUBuckets, n) == tab[t := n - 1];
    }
  }

  lemma {:induction false} LastBucketLists(s: Stream, nUBuckets: int, n: int, b: int)
    requires 0 <= b < nUBuckets <= |s.buckets| && Lists(s, b, n)
    ensures b <= LastBucket(s, nUBuckets, n) < nUBuckets && Lists(s, LastBucket(s, nUBuckets, n), n)
  {
    if !Lists(s, nUBuckets - 1, n) {
      LastBucketLists(s, nUBuckets - 1, n, b);
    }
  }

  ghost function IdsBelow(n: nat): (r: set<Nid>)
    ensures |r| == n && forall i: Nid :: i in r <==> 0 <= i < n
  {
    if n == 0 then {} else IdsBelow(n - 1) + {n - 1}
  }

  /** A stream written from a consistent state loads every record, each new one into its bucket. */
  lemma WrittenLoads(c: Config, src: State, s: Stream)
    requires Inv(c, src) && StoredFrom(c, src, s)
    ensures UBuckets(s) == NEW_BUCKET_COUNT && Complete(s, NEW_BUCKET_COUNT)
    ensures s.nNew == |s.newRecs| && Loaded(c, s) == AllRecs(s)
    ensures Placed(c, s, NEW_BUCKET_COUNT, Places(c, s, NEW_BUCKET_COUNT, s.nNew), s.nNew)
    ensures forall i | 0 <= i < |AllRecs(s)| :: Stays(c, s, i)
  {
    hide Inv, StoredFrom, Entered, Placed, Places, TriedFit, HomesFit, Usable, NewOrder, TriedOrder, FlipBit30;
    StoredIsAcceptable(c, src, s);
    StoredCounts(c, src, s);
    StoredTriedFit(c, src, s);
    AllEnter(c, s.triedRecs[..s.nTried]);
    StoredHomesFit(c, src, s);
    StoredUsable(c, src, s);
    AllPlaced(c, s, NEW_BUCKET_COUNT, s.nNew);
    forall i | 0 <= i < s.nNew ensures i in Places(c, s, NEW_BUCKET_COUNT, s.nNew).Values {
      PlacedValue(c, s, Places(c, s, NEW_BUCKET_COUNT, s.nNew), i);
    }
  }

  lemma PlacedValue(c: Config, s: Stream, newTab: Table, i: nat)
    requires 0 <= s.nNew <= |s.newRecs| && NEW_BUCKET_COUNT <= |s.buckets|
    requires Placed(c, s, NEW_BUCKET_COUNT, newTab, s.nNew) && i < s.nNew
    ensures i in newTab.Values && SlotsOf(newTab, i) == {HomeSlot(c, s, NEW_BUCKET_COUNT, i)}
  {
    hide HomeSlot;
  }

  /** What was stored is back: the loaded state is the stored one under consecutive ids. */
  lemma Restored(c: Config, src: State, s: Stream, st: State)
    requires Inv(c, src) && StoredFrom(c, src, s) && Complete(s, UBuckets(s)) && LoadedFrom(c, s, st)
    ensures RestoredFrom(src, st)
  {
    hide TablesOk, Inv, NewOrder, TriedOrder, NewSlot, StoredFrom, RandomOk, IdsOk, CountsOk, LastIds, PrunedAddrs,
      Placed, Places, Stays, HomeSlot, Entered, NewIds, TriedIds, UBuckets;
    var news, trieds := NewOrder(src.info, src.nIdCount), TriedOrder(src.info, src.nIdCount);
    var order := news + trieds;
    StoredCounts(c, src, s);
    StoredNumbers(c, src, s);
    WrittenLoads(c, src, s);
    assert Dense(st.info, |order|);
    forall i | 0 <= i < |order| ensures ToRec(st.info[i]) == RecOf(src.info, order[i])
      && st.info[i].inTried == (i >= |news|) {
      StoredRec(c, src, s, i);
      assert IsRec(st.info[i], AllRecs(s)[i], i >= s.nNew);
    }
    RestoredCounts(st, s.nNew, s.nTried);
    forall i | 0 <= i < |news| ensures st.info[i].refCount == 1 {
      PlacedValue(c, s, st.newTab, i);
      NewCount(c, st, i);
    }
    forall t | t in st.newTab ensures t in src.newTab && 0 <= st.newTab[t] < |news|
      && order[st.newTab[t]] == src.newTab[t] {
      HomeBack(c, src, s, st.newTab, t);
    }
    RestoredTried(c, src, s, st, order);
  }

  lemma NewCount(c: Config, st: State, i: Nid)
    requires TablesOk(c, st.info, st.newTab, st.triedTab, {}) && i in st.info && !st.info[i].inTried
    ensures st.info[i].refCount == |SlotsOf(st.newTab, i)|
  {
    assert EntryOk(c, st.info[i], i, st.newTab, st.triedTab, i in {});
  }

  lemma HomeBack(c: Config, src: State, s: Stream, newTab: Table, t: Slot)
    requires Inv(c, src) && StoredFrom(c, src, s) && 0 <= s.nNew <= |s.newRecs| && NEW_BUCKET_COUNT <= |s.buckets|
    requires Placed(c, s, NEW_BUCKET_COUNT, newTab, s.nNew) && t in newTab
    ensures var news := NewOrder(src.info, src.nIdCount);
            0 <= newTab[t] < |news| && t in src.newTab && news[newTab[t]] == src.newTab[t]
  {
    hide Inv, StoredFrom, NewOrder, NewSlot, HomeOf;
    StoredCounts(c, src, s);
    StoredHome(c, src, s, newTab[t]);
  }

  lemma RestoredCounts(st: State, nNew: int, nTried: int)
    requires 0 <= nNew && 0 <= nTried && CountsOk(st) && Dense(st.info, nNew + nTried)
    requires forall i | 0 <= i < nNew + nTried :: st.info[i].inTried == (i >= nNew)
    ensures st.nNew == nNew && st.nTried == nTried
  {
    hide IdsBelow;
    assert NewIds(st.info) == IdsBelow(nNew);
    assert st.info.Keys == IdsBelow(nNew + nTried);
    IdSplit(st.info);
  }

  /** A stream written from a consistent state is accepted and loads clean. */
  lemma WrittenIsClean(c: Config, src: State, s: Stream)
    requires Inv(c, src) && StoredFrom(c, src, s)
    ensures Acceptable(s, UBuckets(s)) && LoadsClean(c, s) && StayingRoutable(c, s)
  {
    hide Inv, StoredFrom, LoadsClean, StayingRoutable, Sane, UBuckets;
    StoredIsAcceptable(c, src, s);
    StoredIsSane(c, src, s);
    SaneLoadsClean(c, s);
  }

  lemma StoredNumbers(c: Config, src: State, s: Stream)
    requires Inv(c, src) && StoredFrom(c, src, s)
    ensures s.nNew == src.nNew && s.nTried == src.nTried
  {
  }

  lemma RestoredTried(c: Config, src: State, s: Stream, st: State, order: seq<Nid>)
    requires Inv(c, src) && StoredFrom(c, src, s) && TablesOk(c, st.info, st.newTab, st.triedTab, {})
    requires order == NewOrder(src.info, src.nIdCount) + TriedOrder(src.info, src.nIdCount)
    requires Dense(st.info, |order|) && |order| == s.nNew + s.nTried && 0 <= s.nNew
    requires forall i | 0 <= i < |order| ::
      ToRec(st.info[i]) == RecOf(src.info, order[i]) && st.info[i].inTried == (i >= s.nNew)
    ensures st.triedTab.Keys == src.triedTab.Keys
    ensures forall t | t in st.triedTab :: 0 <= st.triedTab[t] < |order| && order[st.triedTab[t]] == src.triedTab[t]
  {
    hide StoredFrom, NewOrder, TriedOrder, TriedSlot, RandomOk, AddrOk, StatsOk, CountsOk;
    forall t | t in st.triedTab
      ensures 0 <= st.triedTab[t] < |order| && t in src.triedTab && order[st.triedTab[t]] == src.triedTab[t]
    {
      var i := st.triedTab[t];
      assert TriedSlotOk(c, st.info, t, i);
      StoredRec(c, src, s, i);
      assert EntryOk(c, src.info[order[i]], order[i], src.newTab, src.triedTab, order[i] in {});
    }
    forall t | t in src.triedTab ensures t in st.triedTab {
      var id := src.triedTab[t];
      assert TriedSlotOk(c, src.info, t, id);
      var i := TriedIndex(c, src, id);
      StoredRec(c, src, s, i);
      assert EntryOk(c, st.info[i], i, st.newTab, st.triedTab, i in {});
    }
  }

  lemma TriedIndex(c: Config, src: State, id: Nid) returns (i: nat)
    requires Inv(c, src) && id in src.info && src.info[id].inTried
    ensures var news := NewOrder(src.info, src.nIdCount);
            var order := news + TriedOrder(src.info, src.nIdCount);
            |news| <= i < |order| && order[i] == id
  {
    hide TablesOk, RandomOk, AddrOk, StatsOk, CountsOk;
    TriedOrderIs(src.info, src.nIdCount);
    var trieds := TriedOrder(src.info, src.nIdCount);
    var k :| 0 <= k < |trieds| && trieds[k] == id;
    i := |NewOrder(src.info, src.nIdCount)| + k;
  }

}
