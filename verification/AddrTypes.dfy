/** Entries of the address manager, its bucket hashes and its consistency condition,
    all as values. The mutable manager is in AddrMan.dfy. */
module AddrTypes {

  const TRIED_BUCKET_COUNT: nat := 256
  const NEW_BUCKET_COUNT: nat := 1024
  const BUCKET_SIZE: nat := 64
  const TRIED_BUCKETS_PER_GROUP: nat := 8
  const NEW_BUCKETS_PER_SOURCE_GROUP: nat := 64
  const NEW_BUCKETS_PER_ADDRESS: nat := 8
  const HORIZON_DAYS: nat := 30
  const RETRIES: nat := 3
  const MAX_FAILURES: nat := 10
  const MIN_FAIL_DAYS: nat := 7
  const REPLACEMENT_SECONDS: nat := 4 * 60 * 60
  const TRIED_COLLISION_SIZE: nat := 10
  const TEST_WINDOW: nat := 40 * 60
  const TIME_INIT: nat := 100000000

  /** Internal id of an entry; a negative id is an invalid one. */
  type Nid = int
  const INVALID: Nid := -1

  datatype NetAddr = NetAddr(net: int, bytes: seq<int>)
  datatype Service = Service(addr: NetAddr, port: int)
  datatype Address = Address(service: Service, time: int, services: set<nat>)

  datatype Info = Info(
    service: Service, time: int, services: set<nat>, source: NetAddr,
    lastTry: int, lastCountAttempt: int, lastSuccess: int, attempts: int,
    refCount: int, inTried: bool, randomPos: int)

  function NewInfo(a: Address, source: NetAddr): Info
  {
    Info(a.service, a.time, a.services, source, 0, 0, 0, 0, 0, false, -1)
  }

  /** The unspecified IPv6 address of a default-constructed entry. */
  const NET_IPV6 := 2
  const UNSPECIFIED := NetAddr(NET_IPV6, [0, 0, 0, 0, 0, 0, 0, 0, 0, 0, 0, 0, 0, 0, 0, 0])

  /** The default-constructed entry; its time is that of addresses announced without one. */
  function EmptyInfo(): (r: Info)
    ensures r.service == Service(r.source, 0) && r.source.net == 2 && r.randomPos == -1
    ensures |r.source.bytes| == 16 && forall b | b in r.source.bytes :: b == 0
  {
    NewInfo(Address(Service(UNSPECIFIED, 0), TIME_INIT, {}), UNSPECIFIED)
  }

  /** What the hash writer is fed with. */
  datatype Item = KeyItem(key: int) | BytesItem(bytes: seq<int>) | NumItem(n: int) | TagItem(tag: char)

  /** Everything outside this component: the hash, network groups and address classes. */
  datatype Env = Env(
    cheapHash: seq<Item> -> nat,
    group: (NetAddr, seq<bool>) -> seq<int>,
    isValid: NetAddr -> bool,
    specialRange: NetAddr -> bool,
    asmapHash: seq<bool> -> int)
  {
    predicate IsRoutable(a: NetAddr) { isValid(a) && !specialRange(a) }
  }

  /** What the bucket hashes depend on besides the entry. */
  datatype Config = Config(env: Env, key: int, asmap: seq<bool>)

  datatype Slot = Slot(bucket: int, pos: int)

  function ServiceKey(s: Service): seq<int>
  {
    s.addr.bytes + [s.port / 256, s.port % 256]
  }

  function TriedBucket(c: Config, s: Service): (b: nat)
    ensures b < TRIED_BUCKET_COUNT
  {
    var hash1 := c.env.cheapHash([KeyItem(c.key), BytesItem(ServiceKey(s))]);
    var hash2 := c.env.cheapHash(
      [KeyItem(c.key), BytesItem(c.env.group(s.addr, c.asmap)), NumItem(hash1 % TRIED_BUCKETS_PER_GROUP)]);
    hash2 % TRIED_BUCKET_COUNT
  }

  function NewBucket(c: Config, s: Service, source: NetAddr): (b: nat)
    ensures b < NEW_BUCKET_COUNT
  {
    var srcGroup := c.env.group(source, c.asmap);
    var hash1 := c.env.cheapHash([KeyItem(c.key), BytesItem(c.env.group(s.addr, c.asmap)), BytesItem(srcGroup)]);
    var hash2 := c.env.cheapHash([KeyItem(c.key), BytesItem(srcGroup), NumItem(hash1 % NEW_BUCKETS_PER_SOURCE_GROUP)]);
    hash2 % NEW_BUCKET_COUNT
  }

  function BucketPosition(c: Config, isNew: bool, bucket: int, s: Service): (p: nat)
    ensures p < BUCKET_SIZE
  {
    var tag := TagItem(if isNew then 'N' else 'K');
    c.env.cheapHash([KeyItem(c.key), tag, NumItem(bucket), BytesItem(ServiceKey(s))]) % BUCKET_SIZE
  }

  /** Addresses of one network with different bytes or ports are hashed differently. */
  lemma KeysDiffer(s: Service, t: Service)
    requires |s.addr.bytes| == |t.addr.bytes| && 0 <= s.port < 0x1_0000 && 0 <= t.port < 0x1_0000
    ensures ServiceKey(s) == ServiceKey(t) <==> s.addr.bytes == t.addr.bytes && s.port == t.port
  {
    var n, x, y := |s.addr.bytes|, ServiceKey(s), ServiceKey(t);
    assert x[..n] == s.addr.bytes && y[..n] == t.addr.bytes;
    if x == y { assert x[n] == y[n] && x[n + 1] == y[n + 1]; }
  }

  /** The bytes of an address and its port, high byte first. */
  ghost function KeyBytes(s: Service): seq<int>
  {
    seq(|s.addr.bytes| + 2, i requires 0 <= i < |s.addr.bytes| + 2 =>
      if i < |s.addr.bytes| then s.addr.bytes[i] else if i == |s.addr.bytes| then s.port / 256 else s.port % 256)
  }

  /** What the places of an address are drawn from: eight tried buckets of its network group by its own hash, 64
      new buckets of its source's group by both groups, and in each bucket one of 64 positions by the table, the
      bucket and its own bytes. */
  lemma Drawn(c: Config, s: Service, source: NetAddr, isNew: bool, bucket: int)
    ensures var h, key := c.env.cheapHash, KeyItem(c.key);
      var group, from := BytesItem(c.env.group(s.addr, c.asmap)), BytesItem(c.env.group(source, c.asmap));
      && TriedBucket(c, s) == h([key, group, NumItem(h([key, BytesItem(KeyBytes(s))]) % 8)]) % 256
      && NewBucket(c, s, source) == h([key, from, NumItem(h([key, group, from]) % 64)]) % 1024
      && BucketPosition(c, isNew, bucket, s) ==
         h([key, TagItem(if isNew then 'N' else 'K'), NumItem(bucket), BytesItem(KeyBytes(s))]) % 64
  {
    assert ServiceKey(s) == KeyBytes(s);
  }

  /** The one slot of the tried table an address may occupy. */
  function TriedSlot(c: Config, s: Service): Slot
  {
    var b := TriedBucket(c, s);
    Slot(b, BucketPosition(c, false, b, s))
  }

  /** The one slot of new bucket b an address may occupy. */
  function NewSlot(c: Config, b: int, s: Service): Slot
  {
    Slot(b, BucketPosition(c, true, b, s))
  }

  function IsTerrible(i: Info, now: int): bool
  {
    if i.lastTry != 0 && i.lastTry >= now - 60 then false
    else if i.time > now + 10 * 60 then true
    else if i.time == 0 || now - i.time > HORIZON_DAYS * 24 * 60 * 60 then true
    else if i.lastSuccess == 0 && i.attempts >= RETRIES then true
    else now - i.lastSuccess > MIN_FAIL_DAYS * 24 * 60 * 60 && i.attempts >= MAX_FAILURES
  }

  /** An attempt within the last minute protects an entry. Otherwise it is terrible if its time lies more than
      ten minutes ahead, is missing or is more than thirty days back, if three attempts or more never succeeded,
      or if ten attempts or more failed since a success more than a week ago. */
  lemma TerribleIff(i: Info, now: int)
    ensures IsTerrible(i, now) <==>
              && (i.lastTry == 0 || now - i.lastTry > 60)
              && (|| i.time == 0 || i.time - now > 600 || now - i.time > 2592000
                  || (i.lastSuccess == 0 && i.attempts >= 3)
                  || (now - i.lastSuccess > 604800 && i.attempts >= 10))
  {
  }

  // ---- Bucket tables ------------------------------------------------------

  type Table = map<Slot, Nid>

  function Grid(rows: int, cols: int): set<Slot>
  {
    set b, p | 0 <= b < rows && 0 <= p < cols :: Slot(b, p)
  }

  /** The valid slots of a two-dimensional id table. */
  ghost function TableOf(a: array2<Nid>): Table
    reads a
  {
    map s | s in Grid(a.Length0, a.Length1) && a[s.bucket, s.pos] >= 0 :: a[s.bucket, s.pos]
  }

  /** The slots that hold an id. */
  ghost function SlotsOf(t: Table, id: Nid): set<Slot>
  {
    set s | s in t && t[s] == id
  }

  ghost function NewIds(info: map<Nid, Info>): set<Nid>
  {
    set id | id in info && !info[id].inTried
  }

  ghost function TriedIds(info: map<Nid, Info>): set<Nid>
  {
    set id | id in info && info[id].inTried
  }

  // ---- The consistency condition -----------------------------------------

  datatype State = State(
    nIdCount: Nid, info: map<Nid, Info>, byAddr: map<NetAddr, Nid>, random: seq<Nid>,
    nTried: int, triedTab: Table, nNew: int, newTab: Table)

  /** The random order and the stored positions are inverse to each other. */
  ghost predicate RandomOk(info: map<Nid, Info>, random: seq<Nid>)
  {
    && (forall id | id in info :: 0 <= info[id].randomPos < |random| && random[info[id].randomPos] == id)
    && (forall p | 0 <= p < |random| :: random[p] in info && info[random[p]].randomPos == p)
  }

  /** The address index is the inverse of the entry table. */
  ghost predicate AddrOk(info: map<Nid, Info>, byAddr: map<NetAddr, Nid>)
  {
    && (forall id | id in info :: info[id].service.addr in byAddr && byAddr[info[id].service.addr] == id)
    && (forall a | a in byAddr :: byAddr[a] in info && info[byAddr[a]].service.addr == a)
  }

  ghost predicate IdsOk(info: map<Nid, Info>, nIdCount: Nid)
  {
    0 <= nIdCount && forall id | id in info :: 0 <= id < nIdCount
  }

  ghost predicate FreshSlotOk(c: Config, info: map<Nid, Info>, s: Slot, id: Nid)
  {
    id in info && !info[id].inTried && 0 <= s.bucket < NEW_BUCKET_COUNT && s == NewSlot(c, s.bucket, info[id].service)
  }

  ghost predicate TriedSlotOk(c: Config, info: map<Nid, Info>, s: Slot, id: Nid)
  {
    id in info && info[id].inTried && s == TriedSlot(c, info[id].service)
  }

  /** A tried entry sits in its slot with no references; a new entry's reference count is the
      number of its slots, at most eight, and at least one unless the entry is loose. */
  ghost predicate EntryOk(c: Config, i: Info, id: Nid, newTab: Table, triedTab: Table, loose: bool)
  {
    if i.inTried then
      i.refCount == 0 && TriedSlot(c, i.service) in triedTab && triedTab[TriedSlot(c, i.service)] == id
    else
      i.refCount == |SlotsOf(newTab, id)| && i.refCount <= NEW_BUCKETS_PER_ADDRESS && (i.refCount >= 1 || loose)
  }

  ghost predicate TablesOk(c: Config, info: map<Nid, Info>, newTab: Table, triedTab: Table, loose: set<Nid>)
  {
    && (forall s | s in newTab :: FreshSlotOk(c, info, s, newTab[s]))
    && (forall s | s in triedTab :: TriedSlotOk(c, info, s, triedTab[s]))
    && (forall id | id in info :: EntryOk(c, info[id], id, newTab, triedTab, id in loose))
  }

  ghost predicate StatsOk(env: Env, info: map<Nid, Info>)
  {
    forall id | id in info ::
      && info[id].lastTry >= 0 && info[id].lastSuccess >= 0
      && (info[id].inTried ==> info[id].lastSuccess > 0)
      && env.IsRoutable(info[id].service.addr)
  }

  ghost predicate CountsOk(st: State)
  {
    st.nTried == |TriedIds(st.info)| && st.nNew == |NewIds(st.info)|
  }

  ghost predicate Inv(c: Config, st: State)
  {
    && RandomOk(st.info, st.random)
    && AddrOk(st.info, st.byAddr)
    && IdsOk(st.info, st.nIdCount)
    && TablesOk(c, st.info, st.newTab, st.triedTab, {})
    && StatsOk(c.env, st.info)
    && CountsOk(st)
    && c.key != 0
  }

  // ---- How single updates act on the tables -------------------------------

  lemma SlotsAfterPut(t: Table, s: Slot, id: Nid)
    requires s !in t
    ensures SlotsOf(t[s := id], id) == SlotsOf(t, id) + {s}
    ensures |SlotsOf(t[s := id], id)| == |SlotsOf(t, id)| + 1
    ensures forall x | x != id :: SlotsOf(t[s := id], x) == SlotsOf(t, x)
  {
    var t' := t[s := id];
    assert SlotsOf(t', id) == SlotsOf(t, id) + {s};
    forall x | x != id ensures SlotsOf(t', x) == SlotsOf(t, x) { }
  }

  lemma SlotsAfterClear(t: Table, s: Slot)
    requires s in t
    ensures SlotsOf(t - {s}, t[s]) == SlotsOf(t, t[s]) - {s}
    ensures |SlotsOf(t - {s}, t[s])| == |SlotsOf(t, t[s])| - 1
    ensures forall x | x != t[s] :: SlotsOf(t - {s}, x) == SlotsOf(t, x)
  {
    var t' := t - {s};
    assert SlotsOf(t', t[s]) == SlotsOf(t, t[s]) - {s};
    assert s in SlotsOf(t, t[s]);
    forall x | x != t[s] ensures SlotsOf(t', x) == SlotsOf(t, x) { }
  }

  /** Two entry tables that differ only in statistics and random positions. */
  ghost predicate SamePlaces(info: map<Nid, Info>, info': map<Nid, Info>)
  {
    && info'.Keys == info.Keys
    && forall id | id in info ::
        && info'[id].service == info[id].service
        && info'[id].inTried == info[id].inTried
        && info'[id].refCount == info[id].refCount
  }

  lemma TablesFrame(c: Config, info: map<Nid, Info>, info': map<Nid, Info>, newTab: Table, triedTab: Table,
      loose: set<Nid>)
    requires TablesOk(c, info, newTab, triedTab, loose) && SamePlaces(info, info')
    ensures TablesOk(c, info', newTab, triedTab, loose)
    ensures NewIds(info') == NewIds(info) && TriedIds(info') == TriedIds(info)
  {
    forall s | s in newTab ensures FreshSlotOk(c, info', s, newTab[s]) {
      assert FreshSlotOk(c, info, s, newTab[s]);
    }
    forall s | s in triedTab ensures TriedSlotOk(c, info', s, triedTab[s]) {
      assert TriedSlotOk(c, info, s, triedTab[s]);
    }
    forall id | id in info' ensures EntryOk(c, info'[id], id, newTab, triedTab, id in loose) {
      assert EntryOk(c, info[id], id, newTab, triedTab, id in loose);
    }
  }

  /** Clearing a new-table slot and dropping one reference. */
  lemma DropReference(c: Config, info: map<Nid, Info>, newTab: Table, triedTab: Table, loose: set<Nid>, s: Slot)
    requires TablesOk(c, info, newTab, triedTab, loose) && s in newTab && newTab[s] in info
    ensures var id := newTab[s];
            var info' := info[id := info[id].(refCount := info[id].refCount - 1)];
            info[id].refCount >= 1 && TablesOk(c, info', newTab - {s}, triedTab, loose + {id})
  {
    var id := newTab[s];
    var info' := info[id := info[id].(refCount := info[id].refCount - 1)];
    var newTab' := newTab - {s};
    assert FreshSlotOk(c, info, s, id);
    assert EntryOk(c, info[id], id, newTab, triedTab, id in loose);
    SlotsAfterClear(newTab, s);
    forall t | t in newTab' ensures FreshSlotOk(c, info', t, newTab'[t]) {
      assert FreshSlotOk(c, info, t, newTab[t]);
    }
    forall t | t in triedTab ensures TriedSlotOk(c, info', t, triedTab[t]) {
      assert TriedSlotOk(c, info, t, triedTab[t]);
    }
    forall x | x in info' ensures EntryOk(c, info'[x], x, newTab', triedTab, x in loose + {id}) {
      assert EntryOk(c, info[x], x, newTab, triedTab, x in loose);
    }
  }

  /** Putting an entry into an empty new-table slot and counting the reference. */
  lemma AddReference(c: Config, info: map<Nid, Info>, newTab: Table, triedTab: Table, loose: set<Nid>, s: Slot, id: Nid)
    requires TablesOk(c, info, newTab, triedTab, loose) && s !in newTab
    requires id in info && !info[id].inTried && info[id].refCount < NEW_BUCKETS_PER_ADDRESS
    requires 0 <= s.bucket < NEW_BUCKET_COUNT && s == NewSlot(c, s.bucket, info[id].service)
    ensures var info' := info[id := info[id].(refCount := info[id].refCount + 1)];
            TablesOk(c, info', newTab[s := id], triedTab, loose - {id})
  {
    var info' := info[id := info[id].(refCount := info[id].refCount + 1)];
    var newTab' := newTab[s := id];
    assert EntryOk(c, info[id], id, newTab, triedTab, id in loose);
    SlotsAfterPut(newTab, s, id);
    forall t | t in newTab' ensures FreshSlotOk(c, info', t, newTab'[t]) {
      if t != s { assert FreshSlotOk(c, info, t, newTab[t]); }
    }
    forall t | t in triedTab ensures TriedSlotOk(c, info', t, triedTab[t]) {
      assert TriedSlotOk(c, info, t, triedTab[t]);
    }
    forall x | x in info' ensures EntryOk(c, info'[x], x, newTab', triedTab, x in loose - {id}) {
      assert EntryOk(c, info[x], x, newTab, triedTab, x in loose);
    }
  }

  /** An entry with no references can be removed. */
  lemma RemoveEntry(c: Config, info: map<Nid, Info>, newTab: Table, triedTab: Table, loose: set<Nid>, id: Nid)
    requires TablesOk(c, info, newTab, triedTab, loose) && id in info && !info[id].inTried && info[id].refCount == 0
    ensures TablesOk(c, info - {id}, newTab, triedTab, loose - {id})
    ensures NewIds(info - {id}) == NewIds(info) - {id} && TriedIds(info - {id}) == TriedIds(info)
    ensures |NewIds(info - {id})| == |NewIds(info)| - 1
  {
    var info' := info - {id};
    assert EntryOk(c, info[id], id, newTab, triedTab, id in loose);
    forall s | s in newTab ensures FreshSlotOk(c, info', s, newTab[s]) {
      assert FreshSlotOk(c, info, s, newTab[s]);
      assert s in SlotsOf(newTab, newTab[s]);
    }
    forall s | s in triedTab ensures TriedSlotOk(c, info', s, triedTab[s]) {
      assert TriedSlotOk(c, info, s, triedTab[s]);
    }
    forall x | x in info' ensures EntryOk(c, info'[x], x, newTab, triedTab, x in loose - {id}) {
      assert EntryOk(c, info[x], x, newTab, triedTab, x in loose);
    }
    assert NewIds(info') == NewIds(info) - {id};
    assert id in NewIds(info);
    assert TriedIds(info') == TriedIds(info);
  }

  /** How the two id sets move when one entry is written. */
  lemma IdsAfterWrite(info: map<Nid, Info>, id: Nid, i: Info)
    ensures var info' := info[id := i];
            && NewIds(info') == (if i.inTried then NewIds(info) - {id} else NewIds(info) + {id})
            && TriedIds(info') == (if i.inTried then TriedIds(info) + {id} else TriedIds(info) - {id})
  {
  }

  /** A fresh entry without references can be added; it is loose. */
  lemma InsertEntry(c: Config, info: map<Nid, Info>, newTab: Table, triedTab: Table, loose: set<Nid>, id: Nid, i: Info)
    requires TablesOk(c, info, newTab, triedTab, loose) && id !in info && !i.inTried && i.refCount == 0
    ensures TablesOk(c, info[id := i], newTab, triedTab, loose + {id})
  {
    var info' := info[id := i];
    forall s | s in newTab ensures FreshSlotOk(c, info', s, newTab[s]) {
      assert FreshSlotOk(c, info, s, newTab[s]);
    }
    forall s | s in triedTab ensures TriedSlotOk(c, info', s, triedTab[s]) {
      assert TriedSlotOk(c, info, s, triedTab[s]);
    }
    assert SlotsOf(newTab, id) == {} by {
      forall s | s in newTab ensures newTab[s] != id { assert FreshSlotOk(c, info, s, newTab[s]); }
    }
    forall x | x in info' ensures EntryOk(c, info'[x], x, newTab, triedTab, x in loose + {id}) {
      if x != id {
        assert EntryOk(c, info[x], x, newTab, triedTab, x in loose);
      }
    }
  }

  /** An unreferenced entry enters its empty tried slot. */
  lemma EnterTried(c: Config, info: map<Nid, Info>, newTab: Table, triedTab: Table, loose: set<Nid>, id: Nid)
    requires TablesOk(c, info, newTab, triedTab, loose) && id in info && !info[id].inTried && info[id].refCount == 0
    requires TriedSlot(c, info[id].service) !in triedTab
    ensures var info' := info[id := info[id].(inTried := true)];
            TablesOk(c, info', newTab, triedTab[TriedSlot(c, info[id].service) := id], loose - {id})
  {
    var info' := info[id := info[id].(inTried := true)];
    var slot := TriedSlot(c, info[id].service);
    var triedTab' := triedTab[slot := id];
    assert EntryOk(c, info[id], id, newTab, triedTab, id in loose);
    forall s | s in newTab ensures FreshSlotOk(c, info', s, newTab[s]) {
      assert FreshSlotOk(c, info, s, newTab[s]);
      assert s in SlotsOf(newTab, newTab[s]);
    }
    forall s | s in triedTab' ensures TriedSlotOk(c, info', s, triedTab'[s]) {
      if s != slot { assert TriedSlotOk(c, info, s, triedTab[s]); }
    }
    forall x | x in info' ensures EntryOk(c, info'[x], x, newTab, triedTab', x in loose - {id}) {
      assert EntryOk(c, info[x], x, newTab, triedTab, x in loose);
    }
  }

  /** A tried entry leaves its slot and becomes a loose new entry. */
  lemma LeaveTried(c: Config, info: map<Nid, Info>, newTab: Table, triedTab: Table, loose: set<Nid>, s: Slot)
    requires TablesOk(c, info, newTab, triedTab, loose) && s in triedTab && triedTab[s] in info
    ensures var id := triedTab[s];
            && info[id].inTried && info[id].refCount == 0
            && TablesOk(c, info[id := info[id].(inTried := false)], newTab, triedTab - {s}, loose + {id})
  {
    var id := triedTab[s];
    var info' := info[id := info[id].(inTried := false)];
    var triedTab' := triedTab - {s};
    assert TriedSlotOk(c, info, s, id);
    assert EntryOk(c, info[id], id, newTab, triedTab, id in loose);
    assert SlotsOf(newTab, id) == {} by {
      forall t | t in newTab ensures newTab[t] != id { assert FreshSlotOk(c, info, t, newTab[t]); }
    }
    forall t | t in newTab ensures FreshSlotOk(c, info', t, newTab[t]) {
      assert FreshSlotOk(c, info, t, newTab[t]);
    }
    forall t | t in triedTab' ensures TriedSlotOk(c, info', t, triedTab'[t]) {
      assert TriedSlotOk(c, info, t, triedTab[t]);
    }
    forall x | x in info' ensures EntryOk(c, info'[x], x, newTab, triedTab', x in loose + {id}) {
      assert EntryOk(c, info[x], x, newTab, triedTab, x in loose);
    }
  }
}
