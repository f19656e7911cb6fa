/** The manager's own consistency check, and what a zero result means. */
module AddrCheck {
  import opened AddrTypes
  import opened AddrManager

  function Lookup(byAddr: map<NetAddr, Nid>, a: NetAddr): Nid
  {
    if a in byAddr then byAddr[a] else INVALID
  }

  predicate EntryChecks(i: Info, id: Nid, byAddr: map<NetAddr, Nid>, random: seq<Nid>)
  {
    && (if i.inTried then i.lastSuccess != 0 && i.refCount == 0 else 1 <= i.refCount <= NEW_BUCKETS_PER_ADDRESS)
    && Lookup(byAddr, i.service.addr) == id
    && 0 <= i.randomPos < |random| && random[i.randomPos] == id
    && i.lastTry >= 0 && i.lastSuccess >= 0
  }

  /** What is wrong with an entry for which a code is reported. */
  ghost predicate EntryFault(code: int, i: Info, id: Nid, byAddr: map<NetAddr, Nid>, random: seq<Nid>)
  {
    || (code == -1 && i.inTried && i.lastSuccess == 0)
    || (code == -2 && i.inTried && i.refCount != 0)
    || (code == -3 && !i.inTried && !(0 <= i.refCount <= 8))
    || (code == -4 && !i.inTried && i.refCount == 0)
    || (code == -5 && !(i.service.addr in byAddr && byAddr[i.service.addr] == id))
    || (code == -14 && !(0 <= i.randomPos < |random| && random[i.randomPos] == id))
    || (code == -6 && i.lastTry < 0)
    || (code == -8 && i.lastSuccess < 0)
  }

  /** What is wrong with the tables or the counters for which a code is reported. */
  ghost predicate TableFault(code: int, c: Config, st: State)
  {
    || (code == -7 && |st.random| != st.nTried + st.nNew)
    || (code == -9 && |TriedIds(st.info)| != st.nTried)
    || (code == -10 && |NewIds(st.info)| != st.nNew)
    || (code == -11 && exists s :: s in st.triedTab && StrayTried(st, s))
    || (code == -17 && exists s :: s in st.triedTab && WrongTried(c, st, s, true))
    || (code == -18 && exists s :: s in st.triedTab && WrongTried(c, st, s, false))
    || (code == -12 && exists s :: s in st.newTab && StrayNew(st, s))
    || (code == -19 && exists s :: s in st.newTab && WrongNew(c, st, s))
    || (code == -13 && exists id :: id in TriedIds(st.info) && id !in st.triedTab.Values)
    || (code == -15 && exists id :: id in NewIds(st.info) && st.info[id].refCount > |SlotsOf(st.newTab, id)|)
    || (code == -16 && c.key == 0)
  }

  /** The tried slot holds an entry of another bucket, or of another position in this bucket. */
  ghost predicate WrongTried(c: Config, st: State, s: Slot, bucket: bool)
    requires s in st.triedTab
  {
    && st.triedTab[s] in st.info
    && var own := TriedSlot(c, st.info[st.triedTab[s]].service);
    if bucket then own.bucket != s.bucket else own.bucket == s.bucket && own.pos != s.pos
  }

  /** The new slot holds an entry of another position in this bucket. */
  ghost predicate WrongNew(c: Config, st: State, s: Slot)
    requires s in st.newTab
  {
    st.newTab[s] in st.info && s.pos != NewSlot(c, s.bucket, st.info[st.newTab[s]].service).pos
  }

  /** The tried slot holds an id that is not tried, or that another slot holds too. */
  ghost predicate StrayTried(st: State, s: Slot)
    requires s in st.triedTab
  {
    st.triedTab[s] !in TriedIds(st.info) || exists u :: u in st.triedTab && u != s && st.triedTab[u] == st.triedTab[s]
  }

  /** The new slot holds an id that is not new, or that has more slots than references. */
  ghost predicate StrayNew(st: State, s: Slot)
    requires s in st.newTab
  {
    var id := st.newTab[s];
    id !in NewIds(st.info) || st.info[id].refCount < |SlotsOf(st.newTab, id)|
  }

  /** The code reported for one entry. */
  function EntryCode(i: Info, id: Nid, byAddr: map<NetAddr, Nid>, random: seq<Nid>): (code: int)
    ensures code == 0 <==> EntryChecks(i, id, byAddr, random)
    ensures code != 0 ==> EntryFault(code, i, id, byAddr, random)
  {
    if i.inTried && i.lastSuccess == 0 then -1
    else if i.inTried && i.refCount != 0 then -2
    else if !i.inTried && (i.refCount < 0 || i.refCount > NEW_BUCKETS_PER_ADDRESS) then -3
    else if !i.inTried && i.refCount == 0 then -4
    else if Lookup(byAddr, i.service.addr) != id then -5
    else if i.randomPos < 0 || i.randomPos >= |random| || random[i.randomPos] != id then -14
    else if i.lastTry < 0 then -6
    else if i.lastSuccess < 0 then -8
    else 0
  }

  ghost predicate EntriesCheck(st: State)
  {
    forall id | id in st.info :: EntryChecks(st.info[id], id, st.byAddr, st.random)
  }

  ghost predicate TriedSlotsCheck(c: Config, info: map<Nid, Info>, triedTab: Table)
  {
    forall s | s in triedTab :: TriedSlotOk(c, info, s, triedTab[s])
  }

  ghost predicate NewSlotsCheck(c: Config, info: map<Nid, Info>, newTab: Table)
  {
    forall s | s in newTab :: FreshSlotOk(c, info, s, newTab[s])
  }

  /** Everything the check verifies. */
  ghost predicate CheckOk(c: Config, st: State)
  {
    && |st.random| == st.nTried + st.nNew
    && EntriesCheck(st)
    && CountsOk(st)
    && TriedSlotsCheck(c, st.info, st.triedTab) && TriedIds(st.info) <= st.triedTab.Values
    && NewSlotsCheck(c, st.info, st.newTab)
    && (forall id | id in NewIds(st.info) :: st.info[id].refCount == |SlotsOf(st.newTab, id)|)
    && c.key != 0
  }

  /** The part of a table before a scan position. */
  ghost function Seen(t: Table, b: int, p: int): Table
  {
    map s | s in t && (s.bucket < b || (s.bucket == b && s.pos < p)) :: t[s]
  }

  lemma SeenNext(a: array2<Nid>, b: nat, p: nat)
    requires b < a.Length0 && p < a.Length1
    ensures var t := TableOf(a);
            Seen(t, b, p + 1) == if a[b, p] >= 0 then Seen(t, b, p)[Slot(b, p) := a[b, p]] else Seen(t, b, p)
    ensures Slot(b, p) !in Seen(TableOf(a), b, p)
  {
    SlotContent(a, b, p);
  }

  lemma SeenBounds(a: array2<Nid>, b: nat)
    ensures Seen(TableOf(a), 0, 0) == map[] && Seen(TableOf(a), a.Length0, 0) == TableOf(a)
    ensures Seen(TableOf(a), b + 1, 0) == Seen(TableOf(a), b, a.Length1)
  {
  }

  /** The ids outside todo, sorted into tried ones and new ones with their reference counts. */
  ghost predicate Sorted(info: map<Nid, Info>, todo: set<Nid>, tried: set<Nid>, news: map<Nid, int>)
  {
    && (forall id :: id in tried <==> id in info && id !in todo && info[id].inTried)
    && (forall id :: id in news <==> id in info && id !in todo && !info[id].inTried)
    && (forall id | id in news :: news[id] == info[id].refCount)
  }

  lemma SortedNext(info: map<Nid, Info>, todo: set<Nid>, tried: set<Nid>, news: map<Nid, int>, id: Nid)
    requires Sorted(info, todo, tried, news) && id in todo && id in info
    ensures info[id].inTried ==> Sorted(info, todo - {id}, tried + {id}, news)
    ensures !info[id].inTried ==> Sorted(info, todo - {id}, tried, news[id := info[id].refCount])
  {
  }

  lemma SortedEnds(info: map<Nid, Info>, tried: set<Nid>, news: map<Nid, int>)
    ensures Sorted(info, info.Keys, {}, map[])
    ensures Sorted(info, {}, tried, news) ==>
              && tried == TriedIds(info) && news.Keys == NewIds(info)
              && forall id | id in news :: id in info && news[id] == info[id].refCount
  {
    if Sorted(info, {}, tried, news) {
      forall id ensures (id in tried <==> id in TriedIds(info)) && (id in news.Keys <==> id in NewIds(info)) {
        assert id in news.Keys <==> id in news;
      }
    }
  }

  /** Every entry outside todo passes its tests. */
  ghost predicate Passed(st: State, todo: set<Nid>)
  {
    forall id | id in st.info && id !in todo :: EntryChecks(st.info[id], id, st.byAddr, st.random)
  }

  lemma PassedNext(st: State, todo: set<Nid>, id: Nid)
    requires Passed(st, todo) && id in st.info && EntryChecks(st.info[id], id, st.byAddr, st.random)
    ensures Passed(st, todo - {id})
  {
    hide EntryChecks;
  }

  lemma PassedEnds(st: State)
    ensures Passed(st, st.info.Keys) && (Passed(st, {}) <==> EntriesCheck(st))
  {
  }

  method CheckEntries(am: AddrMan) returns (code: int, setTried: set<Nid>, mapNew: map<Nid, int>)
    ensures code == 0 <==> EntriesCheck(am.View())
    ensures code == 0 ==> setTried == TriedIds(am.mapInfo) && mapNew.Keys == NewIds(am.mapInfo)
    ensures code == 0 ==> forall id | id in mapNew :: id in am.mapInfo && mapNew[id] == am.mapInfo[id].refCount
    ensures code != 0 ==>
              exists id :: id in am.mapInfo && EntryFault(code, am.mapInfo[id], id, am.mapAddr, am.vRandom)
  {
    hide TableOf, EntryChecks, EntryCode, EntryFault, NewIds, TriedIds, Sorted, Passed;
    setTried, mapNew := {}, map[];
    var todo := am.mapInfo.Keys;
    SortedEnds(am.mapInfo, setTried, mapNew);
    PassedEnds(am.View());
    while |todo| > 0
      invariant todo <= am.mapInfo.Keys && Passed(am.View(), todo) && Sorted(am.mapInfo, todo, setTried, mapNew)
      decreases |todo|
    {
      var id := PickId(todo);
      SortedNext(am.mapInfo, todo, setTried, mapNew, id);
      code := EntryCode(am.mapInfo[id], id, am.mapAddr, am.vRandom);
      if code != 0 {
        return;
      }
      PassedNext(am.View(), todo, id);
      todo := todo - {id};
      if am.mapInfo[id].inTried {
        setTried := setTried + {id};
      } else {
        mapNew := mapNew[id := am.mapInfo[id].refCount];
      }
    }
    SortedEnds(am.mapInfo, setTried, mapNew);
    code := 0;
  }

  method CheckTried(am: AddrMan, tried: set<Nid>) returns (code: int, rest: set<Nid>)
    requires am.Shape() && tried == TriedIds(am.mapInfo)
    ensures code == 0 <==> TriedSlotsCheck(am.Cfg(), am.mapInfo, am.TriedTab())
    ensures code == 0 ==> rest == tried - am.TriedTab().Values
    ensures code != 0 ==> TableFault(code, am.Cfg(), am.View())
  {
    hide TableOf, TriedBucket, BucketPosition, Seen, StrayTried;
    rest := tried;
    ghost var c, info, t := am.Cfg(), am.mapInfo, am.TriedTab();
    SeenBounds(am.vvTried, 0);
    for b := 0 to TRIED_BUCKET_COUNT
      invariant TriedSlotsCheck(c, info, Seen(t, b, 0)) && rest == tried - Seen(t, b, 0).Values
    {
      for p := 0 to BUCKET_SIZE
        invariant TriedSlotsCheck(c, info, Seen(t, b, p)) && rest == tried - Seen(t, b, p).Values
      {
        SlotContent(am.vvTried, b, p);
        SeenNext(am.vvTried, b, p);
        ghost var s, seen := Slot(b, p), Seen(t, b, p);
        var id := am.vvTried[b, p];
        if id >= 0 {
          TriedSeenOnce(c, info, t, seen, s);
          SeenWithin(t, b, p);
          if id !in rest {
            StrayInTried(am.View(), seen, s);
            return -11, rest;
          }
          var cfg := Config(am.env, am.nKey, am.asmap);
          if TriedBucket(cfg, am.mapInfo[id].service) != b {
            assert WrongTried(c, am.View(), s, true);
            return -17, rest;
          }
          if BucketPosition(cfg, false, b, am.mapInfo[id].service) != p {
            assert WrongTried(c, am.View(), s, false);
            return -18, rest;
          }
          rest := rest - {id};
          ValuesAfterPut(seen, s, id);
          assert TriedSlotOk(c, info, s, id);
        }
      }
      SeenBounds(am.vvTried, b);
    }
    SeenBounds(am.vvTried, 0);
    code := 0;
  }

  lemma ValuesAfterPut(t: Table, s: Slot, id: Nid)
    requires s !in t
    ensures t[s := id].Values == t.Values + {id}
  {
    var t' := t[s := id];
    assert t'[s] == id;
    forall x | x in t.Values ensures x in t'.Values {
      var u :| u in t && t[u] == x;
      assert t'[u] == x;
    }
  }

  /** A well-placed tried id cannot sit in a second slot. */
  lemma TriedSeenOnce(c: Config, info: map<Nid, Info>, t: Table, seen: Table, s: Slot)
    requires TriedSlotsCheck(c, info, seen) && s in t && s !in seen
    ensures TriedSlotsCheck(c, info, t) ==> t[s] in TriedIds(info) - seen.Values
  {
    if TriedSlotsCheck(c, info, t) {
      assert TriedSlotOk(c, info, s, t[s]);
      forall u | u in seen ensures seen[u] != t[s] {
        assert TriedSlotOk(c, info, u, seen[u]);
      }
    }
  }

  /** What remains to be counted down after part of the table was scanned. */
  ghost predicate Remaining(info: map<Nid, Info>, seen: Table, rest: map<Nid, int>)
  {
    && (forall id | id in rest ::
      id in NewIds(info) && rest[id] > 0 && rest[id] == info[id].refCount - |SlotsOf(seen, id)|)
    && (forall id | id in NewIds(info) && id !in rest :: info[id].refCount == |SlotsOf(seen, id)|)
  }

  method CheckNew(am: AddrMan, counts: map<Nid, int>) returns (code: int, rest: map<Nid, int>)
    requires am.Shape() && Remaining(am.mapInfo, map[], counts)
    ensures code == 0 ==> NewSlotsCheck(am.Cfg(), am.mapInfo, am.NewTab()) && Remaining(am.mapInfo, am.NewTab(), rest)
    ensures code != 0 && NewSlotsCheck(am.Cfg(), am.mapInfo, am.NewTab()) ==>
              exists id | id in NewIds(am.mapInfo) :: am.mapInfo[id].refCount < |SlotsOf(am.NewTab(), id)|
    ensures code != 0 ==> TableFault(code, am.Cfg(), am.View())
  {
    hide TableOf, BucketPosition, Seen, Remaining, SlotsOf, StrayNew;
    rest := counts;
    ghost var c, info, t := am.Cfg(), am.mapInfo, am.NewTab();
    SeenBounds(am.vvNew, 0);
    for b := 0 to NEW_BUCKET_COUNT
      invariant NewSlotsCheck(c, info, Seen(t, b, 0)) && Remaining(info, Seen(t, b, 0), rest)
    {
      for p := 0 to BUCKET_SIZE
        invariant NewSlotsCheck(c, info, Seen(t, b, p)) && Remaining(info, Seen(t, b, p), rest)
      {
        SlotContent(am.vvNew, b, p);
        SeenNext(am.vvNew, b, p);
        ghost var s, seen := Slot(b, p), Seen(t, b, p);
        var id := am.vvNew[b, p];
        if id >= 0 {
          SeenWithin(t, b, p);
          if id !in rest {
            Overcounted(c, info, t, seen, rest, s);
            StrayInNew(am.View(), seen, rest, s);
            return -12, rest;
          }
          InRest(info, seen, rest, id);
          var cfg := Config(am.env, am.nKey, am.asmap);
          if BucketPosition(cfg, true, b, am.mapInfo[id].service) != p {
            assert !FreshSlotOk(c, info, s, t[s]) && WrongNew(c, am.View(), s);
            return -19, rest;
          }
          CountDown(info, seen, rest, s, id);
          assert FreshSlotOk(c, info, s, id);
          rest := if rest[id] == 1 then rest - {id} else rest[id := rest[id] - 1];
        }
      }
      SeenBounds(am.vvNew, b);
    }
    SeenBounds(am.vvNew, 0);
    code := 0;
  }

  lemma InRest(info: map<Nid, Info>, seen: Table, rest: map<Nid, int>, id: Nid)
    requires Remaining(info, seen, rest) && id in rest
    ensures id in info && !info[id].inTried && rest[id] > 0
  {
  }

  lemma SeenWithin(t: Table, b: int, p: int)
    ensures forall s | s in Seen(t, b, p) :: s in t && t[s] == Seen(t, b, p)[s]
  {
  }

  lemma Overcounted(c: Config, info: map<Nid, Info>, t: Table, seen: Table, rest: map<Nid, int>, s: Slot)
    requires Remaining(info, seen, rest) && s in t && s !in seen && t[s] !in rest
    requires forall u | u in seen :: u in t && t[u] == seen[u]
    ensures !NewSlotsCheck(c, info, t) || exists id | id in NewIds(info) :: info[id].refCount < |SlotsOf(t, id)|
  {
    var id := t[s];
    if FreshSlotOk(c, info, s, id) {
      assert id in NewIds(info);
      assert SlotsOf(seen, id) + {s} <= SlotsOf(t, id);
      SubsetCard(SlotsOf(seen, id) + {s}, SlotsOf(t, id));
    }
  }

  lemma StrayInTried(st: State, seen: Table, s: Slot)
    requires s in st.triedTab && s !in seen && forall u | u in seen :: u in st.triedTab && st.triedTab[u] == seen[u]
    requires st.triedTab[s] !in TriedIds(st.info) - seen.Values
    ensures StrayTried(st, s)
  {
    var id := st.triedTab[s];
    if id in seen.Values {
      var u :| u in seen && seen[u] == id;
      assert u != s;
    }
  }

  lemma StrayInNew(st: State, seen: Table, rest: map<Nid, int>, s: Slot)
    requires Remaining(st.info, seen, rest) && s in st.newTab && s !in seen && st.newTab[s] !in rest
    requires forall u | u in seen :: u in st.newTab && st.newTab[u] == seen[u]
    ensures StrayNew(st, s)
  {
    var id := st.newTab[s];
    if id in NewIds(st.info) {
      assert SlotsOf(seen, id) + {s} <= SlotsOf(st.newTab, id);
      SubsetCard(SlotsOf(seen, id) + {s}, SlotsOf(st.newTab, id));
    }
  }

  lemma {:induction false} SubsetCard<T>(a: set<T>, b: set<T>)
    requires a <= b
    ensures |a| <= |b| && (|a| == |b| ==> a == b)
  {
    assert b == a + (b - a);
  }

  lemma CountDown(info: map<Nid, Info>, seen: Table, rest: map<Nid, int>, s: Slot, id: Nid)
    requires Remaining(info, seen, rest) && s !in seen && id in rest
    ensures Remaining(info, seen[s := id], if rest[id] == 1 then rest - {id} else rest[id := rest[id] - 1])
  {
    SlotsAfterPut(seen, s, id);
  }

  /** The consistency check returns zero exactly when everything it verifies holds. */
  method Check(am: AddrMan) returns (code: int)
    requires am.Shape()
    ensures code == 0 <==> CheckOk(am.Cfg(), am.View())
    ensures code != 0 ==>
              || TableFault(code, am.Cfg(), am.View())
              || exists id :: id in am.mapInfo && EntryFault(code, am.mapInfo[id], id, am.mapAddr, am.vRandom)
  {
    hide TableOf, EntriesCheck, TriedSlotsCheck, NewSlotsCheck, Remaining, SlotsOf, TriedIds, NewIds, EntryFault,
      StrayTried, StrayNew;
    if |am.vRandom| != am.nTried + am.nNew { return -7; }
    var setTried, mapNew;
    code, setTried, mapNew := CheckEntries(am);
    if code != 0 { return; }
    if |setTried| != am.nTried { return -9; }
    if |mapNew.Keys| != am.nNew { return -10; }
    code, setTried := CheckTried(am, setTried);
    if code != 0 { return; }
    CountsStart(am.View(), mapNew);
    code, mapNew := CheckNew(am, mapNew);
    RestEmpty(am.mapInfo, am.NewTab(), mapNew);
    if code != 0 { return; }
    EmptyDifference(TriedIds(am.mapInfo), am.TriedTab().Values);
    if |setTried| != 0 {
      SomeLeft(TriedIds(am.mapInfo), am.TriedTab().Values);
      return -13;
    }
    if |mapNew.Keys| != 0 {
      SomeUncounted(am.mapInfo, am.NewTab(), mapNew);
      return -15;
    }
    if am.nKey == 0 { return -16; }
  }

  lemma EmptyDifference(a: set<Nid>, b: set<Nid>)
    ensures |a - b| == 0 <==> a <= b
  {
    if a <= b {
      assert a - b == {};
    }
    if |a - b| == 0 {
      forall x | x in a ensures x in b {
        assert x !in a - b;
      }
    }
  }

  lemma SomeLeft(a: set<Nid>, b: set<Nid>)
    requires |a - b| != 0
    ensures exists id :: id in a && id !in b
  {
    var rest := a - b;
    assert (forall x :: x !in rest) ==> rest == {};
  }

  lemma SomeUncounted(info: map<Nid, Info>, newTab: Table, rest: map<Nid, int>)
    requires Remaining(info, newTab, rest) && |rest.Keys| != 0
    ensures exists id :: id in NewIds(info) && info[id].refCount > |SlotsOf(newTab, id)|
  {
    assert (forall x :: x !in rest.Keys) ==> rest.Keys == {};
    var id :| id in rest.Keys;
    assert rest[id] > 0;
  }

  lemma CountsStart(st: State, counts: map<Nid, int>)
    requires EntriesCheck(st) && counts.Keys == NewIds(st.info)
    requires forall id | id in counts :: id in st.info && counts[id] == st.info[id].refCount
    ensures Remaining(st.info, map[], counts)
  {
    forall id | id in NewIds(st.info) ensures st.info[id].refCount >= 1 && SlotsOf(map[], id) == {} {
      assert EntryChecks(st.info[id], id, st.byAddr, st.random);
    }
  }

  lemma RestEmpty(info: map<Nid, Info>, newTab: Table, rest: map<Nid, int>)
    ensures Remaining(info, newTab, rest) ==>
              (rest.Keys == {} <==> forall id | id in NewIds(info) :: info[id].refCount == |SlotsOf(newTab, id)|)
  {
    if Remaining(info, newTab, rest) && rest.Keys != {} {
      assert (forall x :: x !in rest.Keys) ==> rest.Keys == {};
      var id :| id in rest.Keys;
      assert info[id].refCount != |SlotsOf(newTab, id)|;
    }
  }

  lemma EntriesFromInv(c: Config, st: State)
    requires RandomOk(st.info, st.random) && AddrOk(st.info, st.byAddr) && StatsOk(c.env, st.info)
    requires TablesOk(c, st.info, st.newTab, st.triedTab, {})
    ensures EntriesCheck(st)
  {
    hide TriedSlot, NewSlot;
    forall id | id in st.info ensures EntryChecks(st.info[id], id, st.byAddr, st.random) {
      assert EntryOk(c, st.info[id], id, st.newTab, st.triedTab, id in {});
    }
  }

  lemma SlotsFromInv(c: Config, st: State)
    requires TablesOk(c, st.info, st.newTab, st.triedTab, {})
    ensures TriedSlotsCheck(c, st.info, st.triedTab) && TriedIds(st.info) <= st.triedTab.Values
    ensures NewSlotsCheck(c, st.info, st.newTab)
    ensures forall id | id in NewIds(st.info) :: st.info[id].refCount == |SlotsOf(st.newTab, id)|
  {
    hide TriedSlot, NewSlot;
    forall id | id in TriedIds(st.info) ensures id in st.triedTab.Values {
      assert EntryOk(c, st.info[id], id, st.newTab, st.triedTab, id in {});
    }
    forall id | id in NewIds(st.info) ensures st.info[id].refCount == |SlotsOf(st.newTab, id)| {
      assert EntryOk(c, st.info[id], id, st.newTab, st.triedTab, id in {});
    }
  }

  lemma IdSplit(info: map<Nid, Info>)
    ensures |info.Keys| == |NewIds(info)| + |TriedIds(info)|
  {
    assert info.Keys == NewIds(info) + TriedIds(info) && NewIds(info) !! TriedIds(info);
  }

  /** The manager's invariant implies everything the check looks at. */
  lemma InvMeansCheckOk(c: Config, st: State)
    requires Inv(c, st)
    ensures CheckOk(c, st)
  {
    hide RandomOk, AddrOk, TablesOk, StatsOk, EntriesCheck, TriedSlotsCheck, NewSlotsCheck, TriedIds, NewIds, SlotsOf;
    EntriesFromInv(c, st);
    SlotsFromInv(c, st);
    RandomCount(st.info, st.random);
    IdSplit(st.info);
  }

  lemma TablesFromCheck(c: Config, st: State)
    requires CheckOk(c, st)
    ensures TablesOk(c, st.info, st.newTab, st.triedTab, {})
  {
    hide NewSlot;
    forall id | id in st.info ensures EntryOk(c, st.info[id], id, st.newTab, st.triedTab, id in {}) {
      assert EntryChecks(st.info[id], id, st.byAddr, st.random);
      if st.info[id].inTried {
        assert id in TriedIds(st.info);
        var s :| s in st.triedTab && st.triedTab[s] == id;
        assert TriedSlotOk(c, st.info, s, id);
      } else {
        assert id in NewIds(st.info);
      }
    }
  }

  lemma IndexesFromCheck(env: Env, st: State)
    requires EntriesCheck(st) && |st.random| == |st.info.Keys|
    requires forall id | id in st.info :: env.IsRoutable(st.info[id].service.addr)
    requires forall a | a in st.byAddr :: st.byAddr[a] in st.info && st.info[st.byAddr[a]].service.addr == a
    requires IdsOk(st.info, st.nIdCount)
    ensures RandomOk(st.info, st.random) && AddrOk(st.info, st.byAddr) && StatsOk(env, st.info)
  {
    forall id | id in st.info ensures EntryChecks(st.info[id], id, st.byAddr, st.random)
      && st.info[id].service.addr in st.byAddr {
      assert EntryChecks(st.info[id], id, st.byAddr, st.random);
    }
    RandomOnto(st.info, st.random);
  }

  /** A passed check leaves open only what it does not look at: stray address keys, the id counter
      and whether the addresses are routable. */
  lemma CheckOkMeansInv(c: Config, st: State)
    requires CheckOk(c, st)
    requires forall a | a in st.byAddr :: st.byAddr[a] in st.info && st.info[st.byAddr[a]].service.addr == a
    requires IdsOk(st.info, st.nIdCount)
    requires forall id | id in st.info :: c.env.IsRoutable(st.info[id].service.addr)
    ensures Inv(c, st)
  {
    hide RandomOk, AddrOk, TablesOk, StatsOk, EntriesCheck, TriedSlotsCheck, NewSlotsCheck, TriedIds, NewIds, SlotsOf;
    TablesFromCheck(c, st);
    IdSplit(st.info);
    IndexesFromCheck(c.env, st);
  }

  /** Positions that are inverse to the order make both the same size. */
  lemma {:induction false} RandomCount(info: map<Nid, Info>, random: seq<Nid>)
    requires RandomOk(info, random)
    ensures |random| == |info.Keys|
  {
    DistinctCount(random, info.Keys);
  }

  lemma {:induction false} DistinctCount(ids: seq<Nid>, keys: set<Nid>)
    requires forall i, j | 0 <= i < j < |ids| :: ids[i] != ids[j]
    requires forall i | 0 <= i < |ids| :: ids[i] in keys
    requires forall x | x in keys :: exists i :: 0 <= i < |ids| && ids[i] == x
    ensures |ids| == |keys|
  {
    if ids == [] {
      assert (forall x :: x !in keys) ==> keys == {};
    } else {
      var n := |ids| - 1;
      forall x | x in keys - {ids[n]} ensures exists i :: 0 <= i < n && ids[..n][i] == x {
        var i :| 0 <= i < |ids| && ids[i] == x;
        assert ids[..n][i] == x;
      }
      DistinctCount(ids[..n], keys - {ids[n]});
    }
  }

  /** As many positions as entries, each entry at its own position: nothing else is in the order. */
  lemma RandomOnto(info: map<Nid, Info>, random: seq<Nid>)
    requires forall id | id in info :: 0 <= info[id].randomPos < |random| && random[info[id].randomPos] == id
    requires |random| == |info.Keys|
    ensures RandomOk(info, random)
  {
    var used := set id | id in info :: info[id].randomPos;
    ImageCard(info, info.Keys);
    var all := Range(|random|);
    assert used <= all;
    SubsetCard(used, all);
    forall p | 0 <= p < |random| ensures random[p] in info && info[random[p]].randomPos == p {
      assert p in all;
    }
  }

  lemma {:induction false} ImageCard(info: map<Nid, Info>, keys: set<Nid>)
    requires keys <= info.Keys
    requires forall id, x | id in info && x in info && id != x :: info[id].randomPos != info[x].randomPos
    ensures |set id | id in keys :: info[id].randomPos| == |keys|
  {
    var image := set id | id in keys :: info[id].randomPos;
    if |keys| > 0 {
      assert (forall x :: x !in keys) ==> keys == {};
      var id :| id in keys;
      ImageCard(info, keys - {id});
      assert image == (set x | x in keys - {id} :: info[x].randomPos) + {info[id].randomPos};
    } else {
      assert image == {};
    }
  }

  ghost function Range(n: nat): (r: set<int>)
    ensures |r| == n && forall p :: p in r <==> 0 <= p < n
  {
    if n == 0 then {} else Range(n - 1) + {n - 1}
  }
}
