/** What a stored address manager stands for, whatever the stream holds. */
module AddrStream {
  import opened AddrTypes
  import opened AddrManager
  import opened AddrSerial
  import opened AddrCheck

  /** The records a stream announces are there. */
  predicate Complete(s: Stream, nUBuckets: int)
  {
    0 <= s.nNew <= |s.newRecs| && 0 <= s.nTried <= |s.triedRecs| && nUBuckets <= |s.buckets|
  }

  /** A known format with a 32-byte key, counts that fit the tables, and all the announced records. */
  ghost predicate Acceptable(s: Stream, nUBuckets: int)
  {
    && s.format <= 3 && s.keySize == 32 && 0 <= s.nNew <= 1024 * 64 && 0 <= s.nTried <= 256 * 64
    && Complete(s, nUBuckets)
  }

  /** The number of buckets; all formats but the first store it with bit 30 flipped. */
  ghost function UBuckets(s: Stream): int
  {
    if s.format == 0 then s.nUBuckets else FlipBit30(s.nUBuckets)
  }

  // ---- The records that are loaded ----------------------------------------

  /** Some of the records has the tried slot t. */
  ghost predicate SlotTaken(c: Config, recs: seq<Rec>, t: Slot)
  {
    exists j :: 0 <= j < |recs| && TriedSlot(c, recs[j].service) == t
  }

  /** The tried records that are loaded: those with a valid address whose slot no earlier one took. */
  ghost function Entered(c: Config, recs: seq<Rec>): (r: seq<Rec>)
    ensures |r| <= |recs|
  {
    if recs == [] then []
    else
      var init, last := Entered(c, recs[..|recs| - 1]), recs[|recs| - 1];
      if c.env.isValid(last.service.addr) && !SlotTaken(c, init, TriedSlot(c, last.service)) then init + [last]
      else init
  }

  /** The loaded records in the order of their new ids. */
  ghost function Loaded(c: Config, s: Stream): seq<Rec>
    requires 0 <= s.nNew <= |s.newRecs| && 0 <= s.nTried <= |s.triedRecs|
  {
    s.newRecs[..s.nNew] + Entered(c, s.triedRecs[..s.nTried])
  }

  ghost predicate Lists(s: Stream, b: int, n: int)
    requires 0 <= b < |s.buckets|
  {
    n in s.buckets[b]
  }

  /** The last of the first nUBuckets buckets that lists the index, or -1. */
  ghost function LastBucket(s: Stream, nUBuckets: int, n: int): int
    requires nUBuckets <= |s.buckets|
    decreases Max(0, nUBuckets)
  {
    if nUBuckets <= 0 then -1
    else if Lists(s, nUBuckets - 1, n) then nUBuckets - 1
    else LastBucket(s, nUBuckets - 1, n)
  }

  /** The bucket each new record was last listed in; the first bucket if it was not listed. */
  ghost function HomeOf(s: Stream, nUBuckets: int, n: int): int
    requires nUBuckets <= |s.buckets|
  {
    if LastBucket(s, nUBuckets, n) < 0 then 0 else LastBucket(s, nUBuckets, n)
  }

  /** The stored buckets can be used: the format says which asmap made them, it is this one, and their number
      is the same. */
  ghost predicate Usable(c: Config, s: Stream, nUBuckets: int)
  {
    && s.format >= 2 && nUBuckets == 1024
    && s.asmapVersion == if c.asmap == [] then 0 else c.env.asmapHash(c.asmap)
  }

  /** Adds a reference to record i: in its stored bucket if that can be used and is free, otherwise
      in the bucket of its source if that is free. */
  ghost function PlaceNext(c: Config, tab: Table, i: nat, r: Rec, usable: bool, home: int): Table
  {
    var t := NewSlot(c, home, r.service);
    var u := NewSlot(c, NewBucket(c, r.service, r.source), r.service);
    if usable && t !in tab then tab[t := i] else if u !in tab then tab[u := i] else tab
  }

  /** The new table after the first n new records. */
  ghost function Places(c: Config, s: Stream, nUBuckets: int, n: nat): Table
    requires n <= |s.newRecs| && nUBuckets <= |s.buckets|
  {
    if n == 0 then map[]
    else
      PlaceNext(c, Places(c, s, nUBuckets, n - 1), n - 1, s.newRecs[n - 1], Usable(c, s, nUBuckets),
        HomeOf(s, nUBuckets, n - 1))
  }

  /** Record i is still there at the end: it is tried, or a new one that found a slot. */
  ghost predicate Stays(c: Config, s: Stream, i: nat)
    requires Complete(s, UBuckets(s))
  {
    i >= s.nNew || i in Places(c, s, UBuckets(s), s.nNew).Values
  }

  /** No other record has the address of record i. */
  ghost predicate Alone(recs: seq<Rec>, i: nat)
    requires i < |recs|
  {
    forall j | 0 <= j < |recs| && j != i :: recs[j].service.addr != recs[i].service.addr
  }

  ghost predicate RecOk(r: Rec, tried: bool)
  {
    r.lastSuccess >= 0 && (tried ==> r.lastSuccess > 0)
  }

  /** The stream has a key, and every record that stays has sensible statistics and an address that
      no other loaded record has, not even one that is pruned. */
  ghost predicate LoadsClean(c: Config, s: Stream)
    requires Complete(s, UBuckets(s))
  {
    var recs := Loaded(c, s);
    && s.key != 0
    && (forall i | 0 <= i < |recs| && Stays(c, s, i) :: RecOk(recs[i], i >= s.nNew) && Alone(recs, i))
  }

  ghost predicate StayingRoutable(c: Config, s: Stream)
    requires Complete(s, UBuckets(s))
  {
    var recs := Loaded(c, s);
    forall i | 0 <= i < |recs| && Stays(c, s, i) :: c.env.IsRoutable(recs[i].service.addr)
  }

  ghost function AllRecs(s: Stream): seq<Rec>
    requires 0 <= s.nNew <= |s.newRecs| && 0 <= s.nTried <= |s.triedRecs|
  {
    s.newRecs[..s.nNew] + s.triedRecs[..s.nTried]
  }

  /** No address twice, only routable addresses, and sensible statistics. */
  ghost predicate Sane(env: Env, s: Stream)
  {
    && s.key != 0
    && 0 <= s.nNew <= |s.newRecs| && 0 <= s.nTried <= |s.triedRecs|
    && (forall i | 0 <= i < |AllRecs(s)| ::
          RecOk(AllRecs(s)[i], i >= s.nNew) && env.IsRoutable(AllRecs(s)[i].service.addr))
    && (forall i, j | 0 <= i < j < |AllRecs(s)| :: AllRecs(s)[i].service.addr != AllRecs(s)[j].service.addr)
  }

  lemma EnteredNone(c: Config, recs: seq<Rec>)
    requires recs == []
    ensures Entered(c, recs) == []
  {
  }

  lemma EnteredNext(c: Config, recs: seq<Rec>, n: nat)
    requires n < |recs|
    ensures var was, r := Entered(c, recs[..n]), recs[n];
            Entered(c, recs[..n + 1]) ==
            if c.env.isValid(r.service.addr) && !SlotTaken(c, was, TriedSlot(c, r.service)) then was + [r] else was
  {
    hide TriedSlot;
    assert recs[..n + 1][..n] == recs[..n];
  }

  lemma {:induction false} EnteredFrom(c: Config, recs: seq<Rec>, k: nat) returns (i: nat)
    requires k < |Entered(c, recs)|
    ensures i < |recs| && Entered(c, recs)[k] == recs[i]
  {
    var init := recs[..|recs| - 1];
    if k < |Entered(c, init)| {
      i := EnteredFrom(c, init, k);
    } else {
      i := |recs| - 1;
    }
  }

  /** Different records stay different records. */
  lemma {:induction false} EnteredDistinct(c: Config, recs: seq<Rec>, j: nat, k: nat)
    requires forall i, i' | 0 <= i < i' < |recs| :: recs[i].service.addr != recs[i'].service.addr
    requires j < k < |Entered(c, recs)|
    ensures Entered(c, recs)[j].service.addr != Entered(c, recs)[k].service.addr
  {
    var init := recs[..|recs| - 1];
    if k < |Entered(c, init)| {
      EnteredDistinct(c, init, j, k);
    } else {
      var i := EnteredFrom(c, init, j);
    }
  }

  /** A sane stream loads clean. */
  lemma SaneLoadsClean(c: Config, s: Stream)
    requires Sane(c.env, s) && Complete(s, UBuckets(s))
    ensures LoadsClean(c, s) && StayingRoutable(c, s)
  {
    hide Stays, UBuckets;
    var recs, all, trieds := Loaded(c, s), AllRecs(s), s.triedRecs[..s.nTried];
    forall i | 0 <= i < |recs|
      ensures RecOk(recs[i], i >= s.nNew) && c.env.IsRoutable(recs[i].service.addr) && Alone(recs, i)
    {
      var k := FromAll(c, s, i);
      forall j | 0 <= j < |recs| && j != i ensures recs[j].service.addr != recs[i].service.addr {
        LoadedDistinct(c, s, if i < j then i else j, if i < j then j else i);
      }
    }
  }

  lemma FromAll(c: Config, s: Stream, i: nat) returns (k: nat)
    requires 0 <= s.nNew <= |s.newRecs| && 0 <= s.nTried <= |s.triedRecs| && i < |Loaded(c, s)|
    ensures k < |AllRecs(s)| && AllRecs(s)[k] == Loaded(c, s)[i] && (k >= s.nNew <==> i >= s.nNew)
  {
    if i < s.nNew {
      k := i;
    } else {
      k := EnteredFrom(c, s.triedRecs[..s.nTried], i - s.nNew);
      k := s.nNew + k;
    }
  }

  lemma LoadedDistinct(c: Config, s: Stream, j: nat, k: nat)
    requires Sane(c.env, s) && j < k < |Loaded(c, s)|
    ensures Loaded(c, s)[j].service.addr != Loaded(c, s)[k].service.addr
  {
    hide Entered;
    var all, trieds := AllRecs(s), s.triedRecs[..s.nTried];
    if j >= s.nNew {
      forall i, i' | 0 <= i < i' < |trieds| ensures trieds[i].service.addr != trieds[i'].service.addr {
        assert all[s.nNew + i] == trieds[i] && all[s.nNew + i'] == trieds[i'];
      }
      EnteredDistinct(c, trieds, j - s.nNew, k - s.nNew);
    } else if k >= s.nNew {
      var i := EnteredFrom(c, trieds, k - s.nNew);
      assert all[s.nNew + i] == trieds[i] && all[j] == s.newRecs[j];
    } else {
      assert all[j] == s.newRecs[j] && all[k] == s.newRecs[k];
    }
  }

  /** Not every accepted stream loads clean: two new records of one address never do, whatever
      their ports and wherever they are placed. */
  lemma RepeatedIsUnclean(c: Config, s: Stream)
    requires Complete(s, UBuckets(s)) && s.nNew >= 2 && s.newRecs[0].service.addr == s.newRecs[1].service.addr
    ensures !LoadsClean(c, s)
  {
    hide UBuckets, Entered;
    FirstStays(c, s, s.nNew);
    var recs := Loaded(c, s);
    assert recs[0] == s.newRecs[0] && recs[1] == s.newRecs[1];
    assert Stays(c, s, 0) && !Alone(recs, 0);
  }

  lemma {:induction false} FirstStays(c: Config, s: Stream, n: nat)
    requires Complete(s, UBuckets(s)) && 0 < n <= |s.newRecs|
    ensures 0 in Places(c, s, UBuckets(s), n).Values
  {
    hide UBuckets, NewSlot, NewBucket, Usable, HomeOf;
    var nU := UBuckets(s);
    if n == 1 {
      assert Places(c, s, nU, 0) == map[];
      PlacedIn(c, map[], 0, s.newRecs[0], Usable(c, s, nU), HomeOf(s, nU, 0), 0);
    } else {
      FirstStays(c, s, n - 1);
      PlacedIn(c, Places(c, s, nU, n - 1), n - 1, s.newRecs[n - 1], Usable(c, s, nU), HomeOf(s, nU, n - 1), 0);
    }
  }

  /** Placing a record removes no other, and a record placed first finds a slot. */
  lemma PlacedIn(c: Config, tab: Table, i: nat, r: Rec, usable: bool, home: int, x: Nid)
    requires x in tab.Values || (x == i && tab == map[])
    ensures x in PlaceNext(c, tab, i, r, usable, home).Values
  {
    hide NewSlot, NewBucket;
    var next := PlaceNext(c, tab, i, r, usable, home);
    if x in tab.Values {
      var t :| t in tab && tab[t] == x;
      assert next[t] == x;
    } else {
      var t := if usable then NewSlot(c, home, r.service) else NewSlot(c, NewBucket(c, r.service, r.source), r.service);
      assert next[t] == x;
    }
  }

  /** A tried record that is stored twice is loaded once, and the stream still loads clean. */
  lemma TwiceTriedIsClean(c: Config, s: Stream)
    requires Complete(s, UBuckets(s)) && s.key != 0 && s.nNew == 0 && s.nTried == 2
    requires s.triedRecs[0] == s.triedRecs[1] && RecOk(s.triedRecs[0], true)
    ensures LoadsClean(c, s)
  {
    hide UBuckets, TriedSlot, SlotTaken, Entered;
    var r := s.triedRecs[0];
    EnteredNone(c, s.triedRecs[..0]);
    SlotTakenOne(c, r);
    EnteredNext(c, s.triedRecs, 0);
    assert Entered(c, s.triedRecs[..1]) == if c.env.isValid(r.service.addr) then [r] else [];
    EnteredNext(c, s.triedRecs, 1);
    assert Entered(c, s.triedRecs[..s.nTried]) == Entered(c, s.triedRecs[..1]);
    assert s.newRecs[..s.nNew] == [];
  }

  lemma SlotTakenOne(c: Config, r: Rec)
    ensures !SlotTaken(c, [], TriedSlot(c, r.service)) && SlotTaken(c, [r], TriedSlot(c, r.service))
  {
    hide TriedSlot;
    assert [r][0] == r;
  }

  // ---- The state a stream loads to ----------------------------------------

  /** Each address leads to the last record that has it. */
  ghost function LastIds(recs: seq<Rec>): map<NetAddr, Nid>
  {
    if recs == [] then map[]
    else LastIds(recs[..|recs| - 1])[recs[|recs| - 1].service.addr := |recs| - 1]
  }

  lemma {:induction false} LastIdsAre(recs: seq<Rec>)
    ensures forall i | 0 <= i < |recs| ::
              recs[i].service.addr in LastIds(recs) && i <= LastIds(recs)[recs[i].service.addr]
    ensures forall a | a in LastIds(recs) :: 0 <= LastIds(recs)[a] < |recs| && recs[LastIds(recs)[a]].service.addr == a
  {
    if recs != [] {
      LastIdsAre(recs[..|recs| - 1]);
    }
  }

  /** The ids in use are exactly 0 up to n. */
  ghost predicate Dense(info: map<Nid, Info>, n: int)
  {
    forall id {:trigger id in info} :: id in info <==> 0 <= id < n
  }

  /** The addresses of the records that do not stay. */
  ghost function PrunedAddrs(c: Config, s: Stream): set<NetAddr>
    requires Complete(s, UBuckets(s))
  {
    var recs := Loaded(c, s);
    set i | 0 <= i < |recs| && !Stays(c, s, i) :: recs[i].service.addr
  }

  /** The state after loading: exactly the staying records under their ids, in their tables, and in
      the address index each address leads to its last record, unless a pruned record had it. */
  ghost predicate LoadedFrom(c: Config, s: Stream, st: State)
    requires Complete(s, UBuckets(s))
  {
    var recs := Loaded(c, s);
    && c.key == s.key
    && RandomOk(st.info, st.random) && IdsOk(st.info, st.nIdCount) && CountsOk(st)
    && TablesOk(c, st.info, st.newTab, st.triedTab, {})
    && (forall i {:trigger i in st.info} :: i in st.info <==> 0 <= i < |recs| && Stays(c, s, i))
    && (forall i | i in st.info :: IsRec(st.info[i], recs[i], i >= s.nNew))
    && st.newTab == Places(c, s, UBuckets(s), s.nNew)
    && st.byAddr == LastIds(recs) - PrunedAddrs(c, s)
  }

  ghost predicate IsRec(i: Info, r: Rec, tried: bool)
  {
    && i.service == r.service && i.time == r.time && i.services == r.services && i.source == r.source
    && i.lastSuccess == r.lastSuccess && i.attempts == r.attempts
    && i.inTried == tried && i.lastTry == 0 && i.lastCountAttempt == 0
  }

  /** The index leads back to every staying record exactly if their addresses are their own. */
  lemma IndexIff(recs: seq<Rec>, stay: set<Nid>, pruned: set<NetAddr>, byAddr: map<NetAddr, Nid>)
    requires byAddr == LastIds(recs) - pruned
    requires forall i | i in stay :: 0 <= i < |recs|
    requires forall i | 0 <= i < |recs| && i !in stay :: recs[i].service.addr in pruned
    requires forall a | a in pruned :: exists i :: 0 <= i < |recs| && i !in stay && recs[i].service.addr == a
    ensures (forall i | i in stay :: Lookup(byAddr, recs[i].service.addr) == i) <==>
              (forall i | i in stay :: Alone(recs, i))
    ensures forall a | a in byAddr :: byAddr[a] in stay && recs[byAddr[a]].service.addr == a
  {
    LastIdsAre(recs);
    if forall i | i in stay :: Lookup(byAddr, recs[i].service.addr) == i {
      forall i, j | i in stay && 0 <= j < |recs| && j != i ensures recs[j].service.addr != recs[i].service.addr {
        assert Lookup(byAddr, recs[i].service.addr) == i;
        if j in stay {
          assert Lookup(byAddr, recs[j].service.addr) == j;
        }
      }
    }
    if forall i | i in stay :: Alone(recs, i) {
      forall i | i in stay ensures Lookup(byAddr, recs[i].service.addr) == i {
        assert Alone(recs, i);
      }
    }
  }

  /** Exactly when a loaded manager passes its own check, and exactly when it is consistent. */
  lemma LoadedIff(c: Config, s: Stream, st: State)
    requires Complete(s, UBuckets(s)) && LoadedFrom(c, s, st)
    ensures CheckOk(c, st) <==> LoadsClean(c, s)
    ensures Inv(c, st) <==> LoadsClean(c, s) && StayingRoutable(c, s)
  {
    hide TablesOk, RandomOk, IdsOk, NewIds, TriedIds, SlotsOf, EntriesCheck, TriedSlotsCheck, NewSlotsCheck, Loaded,
      Stays, AddrOk, StatsOk, RecOk, Alone, Places, LastIds, PrunedAddrs, UBuckets;
    SlotsFromInv(c, st);
    RandomCount(st.info, st.random);
    IdSplit(st.info);
    EntriesIff(c, s, st);
    StayingAll(c, s, st);
  }

  /** The entries that are there and the records that stay are the same. */
  lemma StayingAll(c: Config, s: Stream, st: State)
    requires Complete(s, UBuckets(s)) && LoadedFrom(c, s, st)
    ensures var recs := Loaded(c, s);
      && (LoadsClean(c, s) <==>
            s.key != 0 && forall i | i in st.info :: RecOk(recs[i], i >= s.nNew) && Alone(recs, i))
      && (StayingRoutable(c, s) <==> forall i | i in st.info :: c.env.IsRoutable(recs[i].service.addr))
  {
    hide TablesOk, RandomOk, IdsOk, CountsOk, Loaded, Stays, RecOk, Alone, Places, LastIds, PrunedAddrs, UBuckets,
      IsRec;
  }

  lemma EntriesIff(c: Config, s: Stream, st: State)
    requires Complete(s, UBuckets(s)) && LoadedFrom(c, s, st)
    ensures var recs := Loaded(c, s);
      && (EntriesCheck(st) <==> forall i | i in st.info :: RecOk(recs[i], i >= s.nNew) && Alone(recs, i))
      && (AddrOk(st.info, st.byAddr) <==> forall i | i in st.info :: Alone(recs, i))
      && (StatsOk(c.env, st.info) <==>
            forall i | i in st.info :: RecOk(recs[i], i >= s.nNew) && c.env.IsRoutable(recs[i].service.addr))
  {
    hide TablesOk, CountsOk, IdsOk, Loaded, Stays, Places, LastIds, UBuckets, Alone, AddrOk, StatsOk, PrunedAddrs;
    var recs := Loaded(c, s);
    PrunedAre(c, s, st);
    IndexIff(recs, st.info.Keys, PrunedAddrs(c, s), st.byAddr);
    forall i | i in st.info
      ensures EntryChecks(st.info[i], i, st.byAddr, st.random) <==>
                RecOk(recs[i], i >= s.nNew) && Lookup(st.byAddr, recs[i].service.addr) == i
    {
      EntryCounts(c, st, i);
      assert IsRec(st.info[i], recs[i], i >= s.nNew);
    }
    AddrIff(c, s, st);
    StatsIff(c, s, st);
  }

  lemma AddrIff(c: Config, s: Stream, st: State)
    requires Complete(s, UBuckets(s)) && LoadedFrom(c, s, st)
    requires forall a | a in st.byAddr ::
               st.byAddr[a] in st.info && Loaded(c, s)[st.byAddr[a]].service.addr == a
    ensures AddrOk(st.info, st.byAddr) <==>
              forall i | i in st.info :: Lookup(st.byAddr, Loaded(c, s)[i].service.addr) == i
  {
    hide TablesOk, RandomOk, CountsOk, IdsOk, Loaded, Stays, Places, LastIds, UBuckets, PrunedAddrs;
    forall i | i in st.info ensures st.info[i].service.addr == Loaded(c, s)[i].service.addr && i != INVALID {
      assert IsRec(st.info[i], Loaded(c, s)[i], i >= s.nNew);
    }
  }

  lemma StatsIff(c: Config, s: Stream, st: State)
    requires Complete(s, UBuckets(s)) && LoadedFrom(c, s, st)
    ensures StatsOk(c.env, st.info) <==>
              forall i | i in st.info ::
                RecOk(Loaded(c, s)[i], i >= s.nNew) && c.env.IsRoutable(Loaded(c, s)[i].service.addr)
  {
    hide TablesOk, RandomOk, CountsOk, IdsOk, Loaded, Stays, Places, LastIds, UBuckets, PrunedAddrs;
    forall i | i in st.info ensures IsRec(st.info[i], Loaded(c, s)[i], i >= s.nNew) {
    }
  }

  lemma EntryCounts(c: Config, st: State, i: Nid)
    requires TablesOk(c, st.info, st.newTab, st.triedTab, {}) && i in st.info
    ensures if st.info[i].inTried then st.info[i].refCount == 0
            else 1 <= st.info[i].refCount <= NEW_BUCKETS_PER_ADDRESS
  {
    assert EntryOk(c, st.info[i], i, st.newTab, st.triedTab, i in {});
  }

  lemma PrunedAre(c: Config, s: Stream, st: State)
    requires Complete(s, UBuckets(s)) && LoadedFrom(c, s, st)
    ensures var recs, pruned := Loaded(c, s), PrunedAddrs(c, s);
      && (forall i | i in st.info :: 0 <= i < |recs|)
      && (forall i | 0 <= i < |recs| && i !in st.info :: recs[i].service.addr in pruned)
      && (forall a | a in pruned :: exists i :: 0 <= i < |recs| && i !in st.info && recs[i].service.addr == a)
  {
    hide TablesOk, RandomOk, IdsOk, CountsOk, Loaded, Stays, Places, LastIds, UBuckets, IsRec;
  }

  // ---- Where the new records end ------------------------------------------

  /** The slot that the record's own source selects. */
  ghost function SourceSlot(c: Config, r: Rec): Slot
  {
    NewSlot(c, NewBucket(c, r.service, r.source), r.service)
  }

  /** The slot in a bucket that lists the record, if any lists it, in the last such bucket. */
  ghost predicate ListedSlot(c: Config, s: Stream, n: nat, t: Slot)
    requires n < |s.newRecs|
  {
    && t == NewSlot(c, t.bucket, s.newRecs[n].service) && 0 <= t.bucket < |s.buckets|
    && if n in s.buckets[t.bucket] then forall b | t.bucket < b < |s.buckets| && b < 1024 :: n !in s.buckets[b]
       else t.bucket == 0 && forall b | 0 <= b < |s.buckets| && b < 1024 :: n !in s.buckets[b]
  }

  /** Another record holds the slot. */
  ghost predicate Blocked(tab: Table, n: nat, t: Slot)
  {
    t in tab && tab[t] != n
  }

  lemma {:induction false} PlacesRange(c: Config, s: Stream, nUBuckets: int, n: nat, t: Slot)
    requires n <= |s.newRecs| && nUBuckets <= |s.buckets| && t in Places(c, s, nUBuckets, n)
    ensures 0 <= Places(c, s, nUBuckets, n)[t] < n
  {
    hide NewSlot, NewBucket, HomeOf, Usable;
    if n > 0 && t in Places(c, s, nUBuckets, n - 1) {
      PlacesRange(c, s, nUBuckets, n - 1, t);
    }
  }

  /** Without usable buckets every occupied slot is the one that its holder's source selects, and a record has no
      slot only because another one holds that. */
  lemma {:induction false} SourcePlaces(c: Config, s: Stream, nUBuckets: int, n: nat)
    requires n <= |s.newRecs| && nUBuckets <= |s.buckets| && !Usable(c, s, nUBuckets)
    ensures var tab := Places(c, s, nUBuckets, n);
      && (forall t | t in tab :: 0 <= tab[t] < n && t == SourceSlot(c, s.newRecs[tab[t]]))
      && (forall i | 0 <= i < n :: SourceSlot(c, s.newRecs[i]) in tab)
  {
    hide NewSlot, NewBucket, HomeOf, Usable;
    if n > 0 {
      SourcePlaces(c, s, nUBuckets, n - 1);
    }
  }

  /** With usable buckets an occupied slot is the stored one of its holder, or the one its source selects if the
      stored one was taken; a record has no slot only because others hold both. */
  lemma {:induction false} StoredPlaces(c: Config, s: Stream, nUBuckets: int, n: nat)
    requires n <= |s.newRecs| && nUBuckets <= |s.buckets| && Usable(c, s, nUBuckets)
    ensures var tab := Places(c, s, nUBuckets, n);
      && (forall t | t in tab :: 0 <= tab[t] < n && AtHome(c, s, nUBuckets, tab, tab[t], t))
      && (forall i: nat | i < n && i !in tab.Values ::
            Blocked(tab, i, HomeSlotOf(c, s, nUBuckets, i)) && Blocked(tab, i, SourceSlot(c, s.newRecs[i])))
  {
    hide NewSlot, NewBucket, HomeOf, Usable;
    if n > 0 {
      StoredPlaces(c, s, nUBuckets, n - 1);
      var before, tab := Places(c, s, nUBuckets, n - 1), Places(c, s, nUBuckets, n);
      forall t | t in before ensures t in tab && tab[t] == before[t] {}
      forall t | t in tab ensures 0 <= tab[t] < n && AtHome(c, s, nUBuckets, tab, tab[t], t) {
        if t in before { assert AtHome(c, s, nUBuckets, before, before[t], t); }
      }
      forall i: nat | i < n && i !in tab.Values
        ensures Blocked(tab, i, HomeSlotOf(c, s, nUBuckets, i)) && Blocked(tab, i, SourceSlot(c, s.newRecs[i]))
      {
        if i < n - 1 {
          MoreValues(before, tab, i);
        } else {
          NotPlaced(c, s, nUBuckets, i);
        }
      }
    }
  }

  ghost function HomeSlotOf(c: Config, s: Stream, nUBuckets: int, i: nat): Slot
    requires i < |s.newRecs| && nUBuckets <= |s.buckets|
  {
    NewSlot(c, HomeOf(s, nUBuckets, i), s.newRecs[i].service)
  }

  ghost predicate AtHome(c: Config, s: Stream, nUBuckets: int, tab: Table, i: nat, t: Slot)
    requires i < |s.newRecs| && nUBuckets <= |s.buckets|
  {
    || t == HomeSlotOf(c, s, nUBuckets, i)
    || (t == SourceSlot(c, s.newRecs[i]) && Blocked(tab, i, HomeSlotOf(c, s, nUBuckets, i)))
  }

  lemma MoreValues(before: Table, tab: Table, i: Nid)
    requires forall t | t in before :: t in tab && tab[t] == before[t]
    ensures i in before.Values ==> i in tab.Values
  {
    if i in before.Values {
      var t :| t in before && before[t] == i;
      assert tab[t] == i;
    }
  }

  /** What placing one record does. */
  lemma LastPlaced(c: Config, s: Stream, nUBuckets: int, i: nat)
    requires i < |s.newRecs| && nUBuckets <= |s.buckets| && Usable(c, s, nUBuckets)
    ensures var before, tab := Places(c, s, nUBuckets, i), Places(c, s, nUBuckets, i + 1);
      var t, u := HomeSlotOf(c, s, nUBuckets, i), SourceSlot(c, s.newRecs[i]);
      && (t in before && u in before ==> tab == before)
      && (t !in before || u !in before ==> i in tab.Values)
  {
    hide NewSlot, NewBucket, HomeOf, Usable;
    var before, tab := Places(c, s, nUBuckets, i), Places(c, s, nUBuckets, i + 1);
    var t, u := HomeSlotOf(c, s, nUBuckets, i), SourceSlot(c, s.newRecs[i]);
    if t !in before {
      assert tab[t] == i;
    } else if u !in before {
      assert tab[u] == i;
    }
  }

  /** The record placed last has a slot unless both of its slots were taken before. */
  lemma NotPlaced(c: Config, s: Stream, nUBuckets: int, i: nat)
    requires i < |s.newRecs| && nUBuckets <= |s.buckets| && Usable(c, s, nUBuckets)
    ensures var tab := Places(c, s, nUBuckets, i + 1);
      || i in tab.Values
      || (Blocked(tab, i, HomeSlotOf(c, s, nUBuckets, i)) && Blocked(tab, i, SourceSlot(c, s.newRecs[i])))
  {
    hide NewSlot, NewBucket, HomeOf, Usable, Places, HomeSlotOf, SourceSlot;
    var before := Places(c, s, nUBuckets, i);
    var t, u := HomeSlotOf(c, s, nUBuckets, i), SourceSlot(c, s.newRecs[i]);
    LastPlaced(c, s, nUBuckets, i);
    if t in before { PlacesRange(c, s, nUBuckets, i, t); }
    if u in before { PlacesRange(c, s, nUBuckets, i, u); }
  }

  /** The stream's own fields say that its buckets were made as this manager makes them. */
  ghost predicate SameBuckets(c: Config, s: Stream)
  {
    && s.format >= 2 && s.nUBuckets == 0x4000_0400
    && s.asmapVersion == if c.asmap == [] then 0 else c.env.asmapHash(c.asmap)
  }

  /** Record n has the slot t, or is to have it: the listed one, or that of its source when another record has
      the listed one. */
  ghost predicate ListedOrSource(c: Config, s: Stream, tab: Table, n: nat, t: Slot)
    requires n < |s.newRecs|
  {
    || ListedSlot(c, s, n, t)
    || (t == SourceSlot(c, s.newRecs[n]) && exists u :: ListedSlot(c, s, n, u) && Blocked(tab, n, u))
  }

  /** Where the new records end. If the buckets were made otherwise, each has the slot that its own source selects
      or is missing because another record has that. If they were made the same way, the same holds of the slot it
      was listed in, with the other as a second choice. */
  ghost predicate WellPlaced(c: Config, s: Stream, st: State)
    requires 0 <= s.nNew <= |s.newRecs|
  {
    && (forall t | t in st.newTab :: 0 <= st.newTab[t] < s.nNew)
    && (!SameBuckets(c, s) ==>
          && (forall t | t in st.newTab :: t == SourceSlot(c, s.newRecs[st.newTab[t]]))
          && (forall n: nat | n < s.nNew && n !in st.info :: Blocked(st.newTab, n, SourceSlot(c, s.newRecs[n]))))
    && (SameBuckets(c, s) ==>
          && (forall t | t in st.newTab :: ListedOrSource(c, s, st.newTab, st.newTab[t], t))
          && (forall n: nat | n < s.nNew && n !in st.info ::
                && Blocked(st.newTab, n, SourceSlot(c, s.newRecs[n]))
                && exists u :: ListedSlot(c, s, n, u) && Blocked(st.newTab, n, u)))
  }

  lemma UsableMeans(c: Config, s: Stream)
    ensures Usable(c, s, UBuckets(s)) <==> SameBuckets(c, s)
  {
  }

  lemma {:induction false} LastBucketIs(s: Stream, nUBuckets: int, n: int)
    requires nUBuckets <= |s.buckets|
    ensures var b := LastBucket(s, nUBuckets, n);
      && (b < 0 ==> b == -1 && forall d | 0 <= d < nUBuckets :: n !in s.buckets[d])
      && (b >= 0 ==> b < nUBuckets && n in s.buckets[b] && forall d | b < d < nUBuckets :: n !in s.buckets[d])
    decreases Max(0, nUBuckets)
  {
    if nUBuckets > 0 {
      LastBucketIs(s, nUBuckets - 1, n);
    }
  }

  lemma HomeIsListed(c: Config, s: Stream, n: nat)
    requires n < |s.newRecs| && 1024 <= |s.buckets|
    ensures ListedSlot(c, s, n, HomeSlotOf(c, s, 1024, n))
  {
    hide BucketPosition;
    LastBucketIs(s, 1024, n);
  }

  lemma LoadedPlaces(c: Config, s: Stream, st: State)
    requires Complete(s, UBuckets(s)) && LoadedFrom(c, s, st)
    ensures WellPlaced(c, s, st)
  {
    hide TablesOk, RandomOk, IdsOk, CountsOk, Loaded, LastIds, PrunedAddrs, IsRec, NewSlot, NewBucket, Places, Usable,
      SameBuckets, ListedSlot, HomeOf, SourceSlot, HomeSlotOf, FlipBit30;
    var n := UBuckets(s);
    UsableMeans(c, s);
    assert forall i: nat | i < s.nNew && i !in st.info :: !Stays(c, s, i) by { NewAreLoaded(c, s); }
    if SameBuckets(c, s) {
      SameCount(c, s);
      StoredPlaces(c, s, n, s.nNew);
      forall i: nat | i < s.nNew ensures ListedSlot(c, s, i, HomeSlotOf(c, s, n, i)) { HomeIsListed(c, s, i); }
      forall t | t in st.newTab ensures ListedOrSource(c, s, st.newTab, st.newTab[t], t) {
        assert AtHome(c, s, n, st.newTab, st.newTab[t], t);
      }
    } else {
      SourcePlaces(c, s, n, s.nNew);
      forall i: nat | i < s.nNew && i !in st.info ensures Blocked(st.newTab, i, SourceSlot(c, s.newRecs[i])) {
        NotAValue(st.newTab, i, SourceSlot(c, s.newRecs[i]));
      }
    }
  }

  lemma SameCount(c: Config, s: Stream)
    requires SameBuckets(c, s)
    ensures UBuckets(s) == 1024
  {
  }

  lemma NewAreLoaded(c: Config, s: Stream)
    requires 0 <= s.nNew <= |s.newRecs| && 0 <= s.nTried <= |s.triedRecs|
    ensures |Loaded(c, s)| >= s.nNew
  {
  }

  lemma NotAValue(tab: Table, i: Nid, t: Slot)
    requires t in tab
    ensures tab[t] == i ==> i in tab.Values
  {
  }
}
