/** Whole runs of the address manager. */
module AddrRun {
  import opened AddrTypes
  import opened AddrManager
  import opened AddrCheck

  datatype Op =
    | Add(address: Address, source: NetAddr, timePenalty: int)
    | Good(service: Service, testBeforeEvict: bool, time: int)
    | Attempt(service: Service, countFailure: bool, time: int)
    | Connected(service: Service, time: int)
    | SetServices(service: Service, services: set<nat>)
    | ResolveCollisions
    | GetAddr(maxAddresses: nat, maxPct: nat)
    | SelectTriedCollision

  /** What a run is told by: the tables, the pending collisions and the time of the last success. */
  datatype Snapshot = Snapshot(st: State, collisions: set<Nid>, lastGood: int)

  ghost function Snap(am: AddrMan): Snapshot
    reads am, am.vvNew, am.vvTried
  {
    Snapshot(am.View(), am.triedCollisions, am.nLastGood)
  }

  ghost predicate IsKnown(st: State, service: Service)
  {
    && service.addr in st.byAddr && st.byAddr[service.addr] in st.info
    && st.info[st.byAddr[service.addr]].service == service
  }

  /** Only the entry of a service changed, and only if there is one. */
  ghost predicate Rewrote(a: Snapshot, b: Snapshot, service: Service, change: Info -> Info)
  {
    b == if !IsKnown(a.st, service) then a
         else var id := a.st.byAddr[service.addr];
              a.(st := a.st.(info := a.st.info[id := change(a.st.info[id])]))
  }

  ghost predicate Announces(c: Config, adr: Address, source: NetAddr, penalty: int, a: Snapshot, b: Snapshot)
  {
    && b.collisions == a.collisions && b.lastGood == a.lastGood
    && if !c.env.IsRoutable(adr.service.addr) then b == a
       else if adr.service.addr in a.st.byAddr then
         var id := a.st.byAddr[adr.service.addr];
         && b.st.nIdCount == a.st.nIdCount && id in a.st.info && id in b.st.info
         && OnlyPlaces(a.st.info[id := a.st.info[id].(time := b.st.info[id].time,
              services := a.st.info[id].services + adr.services)], b.st.info)
       else
         var time := if adr.time < penalty then 0 else adr.time - penalty;
         && b.st.nIdCount == a.st.nIdCount + 1
         && OnlyPlaces(a.st.info[a.st.nIdCount := NewInfo(adr.(time := time), source)], b.st.info)
  }

  ghost predicate Reaches(c: Config, service: Service, test: bool, time: int, a: Snapshot, b: Snapshot)
  {
    && b.lastGood == time && b.st.nIdCount == a.st.nIdCount
    && if !IsKnown(a.st, service) then b.st == a.st && b.collisions == a.collisions
       else
         var id, s := a.st.byAddr[service.addr], TriedSlot(c, service);
         var tested := !a.st.info[id].inTried && test && s in a.st.triedTab;
         && OnlyPlaces(a.st.info[id := Reached(a.st.info[id], time)], b.st.info) && id in b.st.info
         && b.st.triedTab == (if a.st.info[id].inTried || tested then a.st.triedTab else a.st.triedTab[s := id])
         && b.collisions == a.collisions + (if tested && |a.collisions| < 10 then {id} else {})
  }

  ghost predicate Resolves(c: Config, time: int, a: Snapshot, b: Snapshot)
  {
    && b.st.nIdCount == a.st.nIdCount && b.collisions <= a.collisions
    && RecentStay(a.st.triedTab, a.st.info, b.st.triedTab, b.st.info, time)
    && forall id | id in b.collisions :: MayWait(c, a.st.triedTab, a.st.info, time, id)
  }

  /** A pending collision was looked at, and dropped if its entry is gone. */
  ghost predicate Picks(id: Nid, a: Snapshot, b: Snapshot)
  {
    && (a.collisions != {} ==> id in a.collisions)
    && b == a.(collisions := if id in a.st.info then a.collisions else a.collisions - {id})
  }

  /** What an operation does to the manager. */
  ghost predicate Moved(c: Config, op: Op, a: Snapshot, b: Snapshot)
  {
    match op
    case Add(adr, source, timePenalty) =>
      Announces(c, adr, source, if adr.service.addr == source then 0 else timePenalty, a, b)
    case Good(service, test, time) => Reaches(c, service, test, time, a, b)
    case Attempt(service, countFailure, time) =>
      Rewrote(a, b, service, (i: Info) =>
        var counted := countFailure && i.lastCountAttempt < a.lastGood;
        i.(lastTry := time, lastCountAttempt := if counted then time else i.lastCountAttempt,
           attempts := i.attempts + if counted then 1 else 0))
    case Connected(service, time) =>
      Rewrote(a, b, service, (i: Info) => i.(time := if time - i.time > 1200 then time else i.time))
    case SetServices(service, services) => Rewrote(a, b, service, (i: Info) => i.(services := services))
    case ResolveCollisions => exists time :: Resolves(c, time, a, b)
    case GetAddr(_, _) =>
      && b == a.(st := a.st.(info := b.st.info, random := b.st.random))
      && OnlyPositions(a.st.info, b.st.info) && multiset(b.st.random) == multiset(a.st.random)
    case SelectTriedCollision => exists id :: Picks(id, a, b)
  }

  method Announce(am: AddrMan, a: Address, source: NetAddr, timePenalty: int)
    requires am.Valid() && am.CollisionsOccupied()
    modifies am, am.vvNew, am.vvTried
    ensures am.Valid() && am.CollisionsOccupied() && am.Kept()
    ensures Moved(am.Cfg(), Add(a, source, timePenalty), old(Snap(am)), Snap(am))
  {
    hide am.Core, TableOf, TriedSlot, OnlyPlaces, NewBucket, NewSlot, BucketPosition, TimeMoved;
    var _, _, _, _ := am.Add_(a, source, timePenalty);
  }

  method Reach(am: AddrMan, service: Service, test: bool, time: int)
    requires am.Valid() && am.CollisionsOccupied() && time > 0
    modifies am, am.vvNew, am.vvTried
    ensures am.Valid() && am.CollisionsOccupied() && am.Kept()
    ensures Moved(am.Cfg(), Good(service, test, time), old(Snap(am)), Snap(am))
  {
    hide am.Core, TableOf, TriedSlot, OnlyPlaces, Keeps;
    am.Good_(service, test, time);
  }

  method Note(am: AddrMan, op: Op)
    requires am.Valid() && am.CollisionsOccupied()
    requires op.Attempt? || op.Connected? || op.SetServices?
    requires op.Attempt? ==> op.time > 0
    modifies am`mapInfo
    ensures am.Valid() && am.CollisionsOccupied() && am.Kept()
    ensures Moved(am.Cfg(), op, old(Snap(am)), Snap(am))
  {
    hide am.Core, TableOf, TriedSlot, Keeps;
    match op
    case Attempt(service, countFailure, time) => am.Attempt_(service, countFailure, time);
    case Connected(service, time) => am.Connected_(service, time);
    case SetServices(service, services) => am.SetServices_(service, services);
  }

  /** One operation; the timestamps it is given are positive. */
  method Apply(am: AddrMan, op: Op)
    requires am.Valid() && am.CollisionsOccupied() && (op.Good? || op.Attempt? ==> op.time > 0)
    modifies am, am.vvNew, am.vvTried
    ensures am.Valid() && am.CollisionsOccupied() && am.Kept()
    ensures Moved(am.Cfg(), op, old(Snap(am)), Snap(am))
  {
    hide am.Core, TableOf, TriedSlot, OnlyPositions, Gathered, RecentStay, MayWait, Announces, Reaches, Rewrote, Keeps;
    match op
    case Add(a, source, timePenalty) => Announce(am, a, source, timePenalty);
    case Good(service, test, time) => Reach(am, service, test, time);
    case ResolveCollisions =>
      ghost var time := am.ResolveCollisions_();
      assert Resolves(am.Cfg(), time, old(Snap(am)), Snap(am));
    case GetAddr(maxAddresses, maxPct) => var _, _ := am.GetAddr_(maxAddresses, maxPct);
    case SelectTriedCollision =>
      var _, id := am.SelectTriedCollision_();
      KeepsSame(am.nIdCount, am.mapInfo, am.TriedTab());
      assert Picks(id, old(Snap(am)), Snap(am));
    case _ => Note(am, op);
  }

  /** A run is a chain of moves; in every run the consistency check passes between calls, occupied tried slots
      stay occupied and pending collisions keep an occupied slot. */
  method Run(am: AddrMan, ops: seq<Op>) returns (codes: seq<int>, ghost trail: seq<Snapshot>)
    requires am.Valid() && am.CollisionsOccupied()
    requires forall i | 0 <= i < |ops| :: ops[i].Good? || ops[i].Attempt? ==> ops[i].time > 0
    modifies am, am.vvNew, am.vvTried
    ensures am.Valid() && am.CollisionsOccupied() && am.Kept()
    ensures |codes| == |ops| && forall i | 0 <= i < |codes| :: codes[i] == 0
    ensures |trail| == |ops| + 1 && trail[0] == old(Snap(am)) && trail[|ops|] == Snap(am)
    ensures forall i | 0 <= i < |ops| :: Moved(am.Cfg(), ops[i], trail[i], trail[i + 1])
  {
    hide RandomOk, AddrOk, StatsOk, CountsOk, CheckOk, Keeps, am.Valid, am.CollisionsOccupied, Moved;
    codes, trail := [], [Snap(am)];
    am.ValidIsInv();
    KeepsSame(am.nIdCount, am.mapInfo, am.TriedTab());
    for i := 0 to |ops|
      invariant am.Valid() && am.CollisionsOccupied() && am.Kept() && am.Cfg() == old(am.Cfg())
      invariant |codes| == i && forall j | 0 <= j < i :: codes[j] == 0
      invariant |trail| == i + 1 && trail[0] == old(Snap(am)) && trail[i] == Snap(am)
      invariant forall j | 0 <= j < i :: Moved(am.Cfg(), ops[j], trail[j], trail[j + 1])
    {
      ghost var st := am.View();
      Apply(am, ops[i]);
      trail := trail + [Snap(am)];
      KeepsMore(old(am.nIdCount), old(am.mapInfo), old(am.TriedTab()), st.nIdCount, st.info, st.triedTab,
        am.nIdCount, am.mapInfo, am.TriedTab());
      am.ValidIsInv();
      InvMeansCheckOk(am.Cfg(), am.View());
      var code := Check(am);
      codes := codes + [code];
    }
  }

  // ---- Outside these runs -------------------------------------------------

  /** A network where every bucket hash is zero, and two of its addresses. */
  const FLAT: Env := Env(_ => 0, (_, _) => [], _ => true, _ => false, _ => 0)
  const ONE: NetAddr := NetAddr(1, [1])
  const TWO: NetAddr := NetAddr(1, [2])

  function Announced(a: NetAddr): Address
  {
    Address(Service(a, 8333), 0, {})
  }

  lemma FlatSlots(c: Config, s: Service, source: NetAddr)
    requires c.env == FLAT
    ensures TriedSlot(c, s) == Slot(0, 0) && NewBucket(c, s, source) == 0 && NewSlot(c, 0, s) == Slot(0, 0)
  {
  }

  /** Entries that any newcomer may displace from their new slots. */
  ghost predicate AllWeak(info: map<Nid, Info>)
  {
    forall id | id in info :: info[id].inTried || (info[id].time == 0 && info[id].lastTry == 0)
  }

  lemma WeakGives(c: Config, info: map<Nid, Info>, newTab: Table, triedTab: Table, s: Slot, now: int)
    requires TablesOk(c, info, newTab, triedTab, {}) && AllWeak(info)
    ensures MayDisplace(info, newTab, s, now)
  {
    if s in newTab {
      ReferencedEntry(c, info, newTab, triedTab, {}, s);
    }
  }

  /** Among such entries a new address stays, and is one of them. */
  method AddFlat(am: AddrMan, a: NetAddr)
    requires am.Valid() && am.env == FLAT && a !in am.mapAddr && AllWeak(am.mapInfo)
    modifies am, am.vvNew
    ensures am.Valid() && am.triedCollisions == old(am.triedCollisions) && am.TriedTab() == old(am.TriedTab())
    ensures am.nIdCount == old(am.nIdCount) + 1 && old(am.nIdCount) in am.mapInfo
    ensures am.mapInfo.Keys <= old(am.mapInfo).Keys + {old(am.nIdCount)}
    ensures var i := am.mapInfo[old(am.nIdCount)]; i.service == Service(a, 8333) && i.time == 0 && i.lastTry == 0
  {
    hide am.Core, TableOf, TablesOk, RandomOk, AddrOk, IdsOk, StatsOk, IsTerrible, NewSlot, NewBucket;
    ghost var c, info0, new0, tried0 := am.Cfg(), am.mapInfo, am.NewTab(), am.TriedTab();
    am.ValidTables();
    am.ShapeOf();
    ghost var now, later, draw;
    var isNew;
    isNew, now, later, draw := am.Add_(Announced(a), a, 0);
    WeakGives(c, info0, new0, tried0, NewSlot(c, NewBucket(c, Service(a, 8333), a), Service(a, 8333)), later);
    PlacesServices(info0[old(am.nIdCount) := NewInfo(Announced(a), a)], am.mapInfo);
  }

  lemma FlatEntry(am: AddrMan, id: Nid)
    requires am.Valid() && am.env == FLAT && id in am.mapInfo
    ensures am.Known(am.mapInfo[id].service) && am.mapAddr[am.mapInfo[id].service.addr] == id
    ensures TriedSlot(am.Cfg(), am.mapInfo[id].service) == Slot(0, 0)
    ensures am.mapInfo[id].inTried ==> Slot(0, 0) in am.TriedTab() && am.TriedTab()[Slot(0, 0)] == id
  {
    hide TableOf, TriedSlot;
    FlatSlots(am.Cfg(), am.mapInfo[id].service, ONE);
    am.OwnSlot(id);
  }

  lemma NotThere(am: AddrMan, a: NetAddr)
    requires am.Valid() && forall id | id in am.mapInfo :: am.mapInfo[id].service.addr != a
    ensures a !in am.mapAddr
  {
    hide TableOf, TablesOk;
    forall x | x in am.mapAddr ensures x != a {
      var id: Nid := am.mapAddr[x];
      assert id in am.mapInfo && am.mapInfo[id].service.addr == x;
    }
  }

  /** A new entry is reached: it takes the tried slot, or is a pending collision with its occupant. */
  method ReachFlat(am: AddrMan, id: Nid)
    requires am.Valid() && am.env == FLAT && id in am.mapInfo && |am.triedCollisions| < TRIED_COLLISION_SIZE
    requires Slot(0, 0) in am.TriedTab() ==> am.TriedTab()[Slot(0, 0)] != id
    modifies am, am.vvNew, am.vvTried
    ensures am.Valid() && am.nIdCount == old(am.nIdCount) && am.mapInfo.Keys <= old(am.mapInfo).Keys
    ensures id in am.mapInfo && am.mapInfo[id].service == old(am.mapInfo)[id].service
    ensures if Slot(0, 0) in old(am.TriedTab()) then
              am.triedCollisions == old(am.triedCollisions) + {id}
            else
              && am.triedCollisions == old(am.triedCollisions) && am.mapInfo[id].inTried
              && am.TriedTab() == old(am.TriedTab())[Slot(0, 0) := id]
  {
    hide am.Core, TableOf, TablesOk, RandomOk, AddrOk, IdsOk, StatsOk, TriedSlot, NewSlot, NewBucket, OnlyPlaces;
    FlatEntry(am, id);
    ghost var service := am.mapInfo[id].service;
    am.Good_(am.mapInfo[id].service, true, 1);
    FlatSlots(am.Cfg(), service, ONE);
  }

  /** Two addresses with one tried slot are reached: the second is a pending collision. */
  method Collide() returns (am: AddrMan)
    ensures fresh(am) && fresh(am.vvNew) && fresh(am.vvTried)
    ensures am.Valid() && am.env == FLAT && am.triedCollisions == {1}
  {
    hide am.Core, TableOf, am.Valid, am.Kept;
    am := new AddrMan(FLAT, [], 1);
    AddFlat(am, ONE);
    ReachFlat(am, 0);
    NotThere(am, TWO);
    AddFlat(am, TWO);
    ReachFlat(am, 1);
  }

  /** What runs exclude: clearing a manager drops its entries but not its pending collisions. When a
      new entry gets the id of one of them, looking at the collision reads the empty tried slot and
      leaves an entry under an invalid id, which the check reports. */
  method StrayEntry() returns (am: AddrMan, r: Info, code: int)
    ensures r == EmptyInfo() && code != 0 && !am.Valid()
    ensures exists id | id < 0 :: id in am.mapInfo && am.mapInfo[id] == EmptyInfo()
  {
    hide TableOf, TablesOk, RandomOk, AddrOk, StatsOk, TriedSlot, IsTerrible, EntriesCheck;
    am := Collide();
    am.ShapeOf();
    am.Clear(2);
    AddFlat(am, ONE);
    NotThere(am, TWO);
    AddFlat(am, TWO);
    ghost var picked;
    r, picked := am.SelectTriedCollision_();
    ghost var id :| id < 0 && id in am.mapInfo && am.mapInfo[id] == EmptyInfo();
    code := Check(am);
    EmptyFails(am.View(), id);
  }

  lemma EmptyFails(st: State, id: Nid)
    requires id in st.info && st.info[id] == EmptyInfo()
    ensures !EntriesCheck(st)
  {
    assert !EntryChecks(st.info[id], id, st.byAddr, st.random);
  }
}
