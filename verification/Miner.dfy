/** Filling a block template from the mempool, parents before children. */
module Miner {
  import opened MinerTrace

  ghost function Children(p: Pool, x: TxId): set<TxId>
  {
    set c | c in p.entries && x in p.entries[c].parents
  }

  // ---- Counting missing parents -------------------------------------------

  /** A count is kept once some parent is added, and it is the number of parents still missing. */
  ghost predicate Counted(p: Pool, added: set<TxId>, missing: map<TxId, nat>, c: TxId)
    requires c in p.entries
  {
    var parents := p.entries[c].parents;
    && (c in missing <==> parents * added != {})
    && (c in missing ==> missing[c] == |parents - added|)
  }

  ghost predicate Tracked(p: Pool, added: set<TxId>, missing: map<TxId, nat>)
  {
    forall c | c in p.entries :: Counted(p, added, missing, c)
  }

  /** A child skipped before whose last missing parent was just added. */
  ghost predicate Ready(p: Pool, added: set<TxId>, x: TxId, skipped: set<TxId>, c: TxId)
  {
    c in p.entries && x in p.entries[c].parents && c in skipped && p.entries[c].parents <= added
  }

  lemma ReadyMeans(p: Pool, added: set<TxId>, x: TxId, skipped: set<TxId>)
    ensures forall c :: Ready(p, added, x, skipped, c) <==>
              x in Parents(p, c) && c in skipped && Parents(p, c) <= added
  {
  }

  lemma CountDown(parents: set<TxId>, added: set<TxId>, x: TxId)
    requires x in parents && x !in added
    ensures |parents - added| == |parents - (added + {x})| + 1
    ensures |parents - (added + {x})| == 0 <==> parents <= added + {x}
  {
    var rest := parents - (added + {x});
    assert parents - added == rest + {x};
    assert rest == {} <==> parents <= added + {x};
  }

  lemma CountFrame(p: Pool, added: set<TxId>, missing: map<TxId, nat>, c: TxId, k: nat)
    ensures forall d | d in p.entries && d != c ::
      Counted(p, added, missing[c := k], d) <==> Counted(p, added, missing, d)
  {
  }

  /** One parent less is missing; the result says whether it was the last one. */
  method TrackParentAdded(p: Pool, ghost added: set<TxId>, x: TxId, missing: map<TxId, nat>, child: TxId)
    returns (counts: map<TxId, nat>, last: bool)
    requires child in p.entries && x in p.entries[child].parents && x !in added && Counted(p, added, missing, child)
    ensures Counted(p, added + {x}, counts, child) && (last <==> p.entries[child].parents <= added + {x})
    ensures child in counts && counts == missing[child := counts[child]]
  {
    ghost var parents := p.entries[child].parents;
    CountDown(parents, added, x);
    counts := missing;
    if child !in counts {
      assert parents - added == parents;
      counts := counts[child := |p.entries[child].parents|];
    }
    assert counts[child] > 0;
    counts := counts[child := counts[child] - 1];
    assert x in parents * (added + {x});
    last := counts[child] == 0;
  }

  /** Tells the children of a newly added transaction, and queues those that waited for it only. */
  method TrackChildren(p: Pool, ghost added: set<TxId>, x: TxId, missing: map<TxId, nat>, skipped: set<TxId>,
      children: set<TxId>)
    returns (counts: map<TxId, nat>, pushed: seq<TxId>)
    requires Tracked(p, added, missing) && x !in added && children == Children(p, x)
    ensures Tracked(p, added + {x}, counts) && Distinct(pushed)
    ensures forall c :: c in pushed <==> Ready(p, added + {x}, x, skipped, c)
  {
    hide Counted;
    counts, pushed := missing, [];
    var todo := children;
    ghost var now := added + {x};
    while todo != {}
      invariant todo <= children && Distinct(pushed)
      invariant forall c | c in p.entries && (c in todo || c !in children) :: Counted(p, added, counts, c)
      invariant forall c | c in p.entries && c in children && c !in todo :: Counted(p, now, counts, c)
      invariant forall c :: c in pushed <==> c !in todo && Ready(p, now, x, skipped, c)
      decreases |todo|
    {
      var child :| child in todo;
      ghost var was := counts;
      var last: bool;
      counts, last := TrackParentAdded(p, added, x, counts, child);
      CountFrame(p, added, was, child, counts[child]);
      CountFrame(p, now, was, child, counts[child]);
      todo := todo - {child};
      if last && child in skipped {
        pushed := pushed + [child];
      }
    }
    forall c | c in p.entries ensures Counted(p, now, counts, c) {
      if c !in children { CountSame(p, added, x, counts, c); }
    }
  }

  lemma CountSame(p: Pool, added: set<TxId>, x: TxId, missing: map<TxId, nat>, c: TxId)
    requires c in p.entries && x !in p.entries[c].parents && Counted(p, added, missing, c)
    ensures Counted(p, added + {x}, missing, c)
  {
    var parents := p.entries[c].parents;
    assert parents * added == parents * (added + {x}) && parents - added == parents - (added + {x});
  }

  // ---- The scheduler ------------------------------------------------------

  /** Every transaction comes after all its mempool parents. */
  ghost predicate Ordered(p: Pool, block: seq<TxId>)
  {
    forall i | 0 <= i < |block| :: Parents(p, block[i]) <= Elems(block[..i])
  }

  /** Why a transaction may stay out for good. */
  ghost predicate Rejected(p: Pool, c: TxId, room: nat, checks: nat)
  {
    c in p.entries && (!p.entries[c].final || p.entries[c].size >= room || p.entries[c].sigChecks >= checks)
  }

  /** What the queues hold between two rounds. */
  ghost predicate Queues(p: Pool, block: seq<TxId>, mi: nat, skipped: set<TxId>, backlog: seq<TxId>)
  {
    && mi <= |p.order| && Distinct(block) && Distinct(backlog) && Ordered(p, block)
    && (forall c | c in block || c in skipped :: c in p.order[..mi])
    && (forall c | c in backlog :: c in skipped && c !in block && Parents(p, c) <= Elems(block))
  }

  /** A transaction the cursor has passed is in the block, queued, rejected or waiting for a parent. */
  ghost predicate Passed(p: Pool, block: seq<TxId>, skipped: set<TxId>, backlog: seq<TxId>, room: nat, checks: nat,
      c: TxId)
  {
    c in block || c in backlog || Rejected(p, c, room, checks) || (c in skipped && !(Parents(p, c) <= Elems(block)))
  }

  ghost predicate Settled(p: Pool, block: seq<TxId>, mi: nat, skipped: set<TxId>, backlog: seq<TxId>, room: nat,
      checks: nat,
      but: set<TxId>)
    requires mi <= |p.order|
  {
    forall c | c in p.order[..mi] && c !in but :: Passed(p, block, skipped, backlog, room, checks, c)
  }

  lemma TakenPrefix(p: Pool, mi: nat)
    requires mi < |p.order|
    ensures p.order[..mi + 1] == p.order[..mi] + [p.order[mi]]
    ensures Distinct(p.order) ==> p.order[mi] !in p.order[..mi]
  {
  }

  /** The cursor moves on and leaves one transaction to be dealt with. */
  lemma TakeFromIndex(p: Pool, block: seq<TxId>, mi: nat, skipped: set<TxId>, backlog: seq<TxId>, room: nat,
      checks: nat)
    requires PoolOk(p) && Queues(p, block, mi, skipped, backlog) && mi < |p.order|
    requires Settled(p, block, mi, skipped, backlog, room, checks, {})
    ensures Queues(p, block, mi + 1, skipped, backlog) && p.order[mi] !in block && p.order[mi] !in skipped
    ensures Settled(p, block, mi + 1, skipped, backlog, room, checks, {p.order[mi]})
  {
    hide Ordered, Passed;
    TakenPrefix(p, mi);
  }

  lemma TakeFromBacklog(p: Pool, block: seq<TxId>, mi: nat, skipped: set<TxId>, backlog: seq<TxId>, room: nat,
      checks: nat)
    requires Queues(p, block, mi, skipped, backlog) && backlog != []
    requires Settled(p, block, mi, skipped, backlog, room, checks, {})
    ensures Queues(p, block, mi, skipped, backlog[1..]) && backlog[0] !in backlog[1..]
    ensures Settled(p, block, mi, skipped, backlog[1..], room, checks, {backlog[0]})
  {
    hide Ordered;
    assert forall c :: c in backlog <==> c == backlog[0] || c in backlog[1..];
  }

  /** Passing on a transaction with a missing parent. */
  lemma Skip(p: Pool, block: seq<TxId>, mi: nat, skipped: set<TxId>, backlog: seq<TxId>, room: nat, checks: nat,
      x: TxId)
    requires Queues(p, block, mi, skipped, backlog) && x in p.order[..mi] && !(Parents(p, x) <= Elems(block))
    requires Settled(p, block, mi, skipped, backlog, room, checks, {x})
    ensures Queues(p, block, mi, skipped + {x}, backlog)
      && Settled(p, block, mi, skipped + {x}, backlog, room, checks, {})
  {
    hide Ordered;
  }

  /** Passing on a rejected transaction. */
  lemma Reject(p: Pool, block: seq<TxId>, mi: nat, skipped: set<TxId>, backlog: seq<TxId>, room: nat, checks: nat,
      x: TxId)
    requires mi <= |p.order| && Rejected(p, x, room, checks)
    requires Settled(p, block, mi, skipped, backlog, room, checks, {x})
    ensures Settled(p, block, mi, skipped, backlog, room, checks, {})
  {
    hide Rejected;
  }

  lemma OrderedAdd(p: Pool, block: seq<TxId>, x: TxId)
    requires Ordered(p, block) && Parents(p, x) <= Elems(block)
    ensures Ordered(p, block + [x])
  {
    forall i | 0 <= i <= |block| ensures Parents(p, (block + [x])[i]) <= Elems((block + [x])[..i]) {
      assert (block + [x])[..i] == block[..i];
      if i == |block| { assert block[..i] == block; }
    }
  }

  /** A transaction in the block has its parents there too. */
  lemma ParentsInside(p: Pool, block: seq<TxId>, c: TxId)
    requires Ordered(p, block) && c in block
    ensures Parents(p, c) <= Elems(block)
  {
    var i :| 0 <= i < |block| && block[i] == c;
  }

  /** Adding a transaction and queueing the children it makes ready. */
  lemma AddQueues(p: Pool, block: seq<TxId>, mi: nat, skipped: set<TxId>, backlog: seq<TxId>, x: TxId,
      pushed: seq<TxId>)
    requires Queues(p, block, mi, skipped, backlog) && x in p.order[..mi] && x !in block && x !in backlog
    requires PoolOk(p) && Parents(p, x) <= Elems(block) && Distinct(pushed)
    requires forall c :: c in pushed <==> Ready(p, Elems(block) + {x}, x, skipped, c)
    ensures Queues(p, block + [x], mi, skipped, backlog + pushed)
  {
    hide Ordered;
    OrderedAdd(p, block, x);
    assert Elems(block + [x]) == Elems(block) + {x};
    forall c | c in pushed ensures c in skipped && c !in block + [x] && c !in backlog
      && Parents(p, c) <= Elems(block) + {x} {
      if c in block { ParentsInside(p, block, c); }
    }
    forall c | c in backlog ensures c !in block + [x] && Parents(p, c) <= Elems(block) + {x} {}
    Concatenated(backlog, pushed);
    Concatenated(block, [x]);
  }

  lemma Concatenated(s: seq<TxId>, t: seq<TxId>)
    requires Distinct(s) && Distinct(t) && forall c | c in t :: c !in s
    ensures Distinct(s + t)
  {
    forall i, j | 0 <= i < j < |s + t| ensures (s + t)[i] != (s + t)[j] {
      if i < |s| <= j { assert t[j - |s|] in t; }
    }
  }

  lemma AddSettled(p: Pool, block: seq<TxId>, mi: nat, skipped: set<TxId>, backlog: seq<TxId>, x: TxId,
      pushed: seq<TxId>,
      room: nat, checks: nat, room2: nat, checks2: nat)
    requires mi <= |p.order| && room2 <= room && checks2 <= checks
    requires Settled(p, block, mi, skipped, backlog, room, checks, {x})
    requires forall c :: c in pushed <==> Ready(p, Elems(block) + {x}, x, skipped, c)
    ensures Settled(p, block + [x], mi, skipped, backlog + pushed, room2, checks2, {})
  {
    var now := block + [x];
    assert Elems(now) == Elems(block) + {x};
    forall c | c in p.order[..mi] ensures Passed(p, now, skipped, backlog + pushed, room2, checks2, c) {
      assert c == x || Passed(p, block, skipped, backlog, room, checks, c);
      if c != x && c in skipped && !(Parents(p, c) <= Elems(block)) && Parents(p, c) <= Elems(now) {
        assert Ready(p, Elems(now), x, skipped, c);
      }
    }
  }

  // ---- Totals -------------------------------------------------------------

  lemma {:induction false} SumWithout(f: TxId -> int, t: seq<TxId>, k: nat)
    requires k < |t|
    ensures Sum(f, t) == Sum(f, t[..k] + t[k + 1..]) + f(t[k])
    decreases |t|
  {
    var n := |t| - 1;
    var rest := t[..k] + t[k + 1..];
    if k == n {
      assert rest == t[..n];
    } else {
      SumWithout(f, t[..n], k);
      assert t[..n][..k] + t[..n][k + 1..] == rest[..n - 1];
      assert rest[n - 1] == t[n];
    }
  }

  /** Distinct members of a list sum to no more than the list, for a quantity that is never negative. */
  lemma {:induction false} SumPart(f: TxId -> int, s: seq<TxId>, t: seq<TxId>)
    requires Distinct(s) && Elems(s) <= Elems(t) && forall c :: f(c) >= 0
    ensures Sum(f, s) <= Sum(f, t)
    decreases |s|
  {
    if s == [] {
      SumNotNegative(f, t);
    } else {
      var n := |s| - 1;
      var x := s[n];
      assert x in Elems(s);
      var k :| 0 <= k < |t| && t[k] == x;
      SumWithout(f, t, k);
      var rest := t[..k] + t[k + 1..];
      forall c | c in Elems(s[..n]) ensures c in Elems(rest) {
        assert c in Elems(s) && c in t && c != x;
        var j :| 0 <= j < |t| && t[j] == c;
        assert rest[if j < k then j else j - 1] == c;
      }
      SumPart(f, s[..n], rest);
    }
  }

  lemma {:induction false} SumNotNegative(f: TxId -> int, t: seq<TxId>)
    requires forall c :: f(c) >= 0
    ensures Sum(f, t) >= 0
  {
    if t != [] { SumNotNegative(f, t[..|t| - 1]); }
  }

  // ---- Block assembly -----------------------------------------------------

  const RESERVED_SIZE: nat := 1000
  const RESERVED_CHECKS: nat := 100
  const MAX_CONSECUTIVE_FAILURES: nat := 1000

  datatype Stop = Done | TimedOut | NearlyFull

  type Word64 = x: nat | x < 0x1_0000_0000_0000_0000

  /** a - b for unsigned 64-bit operands. */
  function Minus64(a: nat, b: nat): (r: nat)
    requires a < 0x1_0000_0000_0000_0000 && b < 0x1_0000_0000_0000_0000
    ensures b <= a ==> r == a - b
    ensures a < b ==> r == 0x1_0000_0000_0000_0000 - (b - a)
  {
    (a + 0x1_0000_0000_0000_0000 - b) % 0x1_0000_0000_0000_0000
  }

  class BlockAssembler {
    const mempool: Pool
    const nMaxGeneratedBlockSize: Word64
    const nMaxGeneratedBlockSigChecks: nat
    const blockMinFeeRate: int

    /** The transactions after the coinbase, and running totals that include space reserved for it. */
    var entries: seq<TxId>
    var nBlockSize: nat
    var nBlockTx: nat
    var nBlockSigChecks: nat
    var nFees: int

    ghost predicate Totals()
      reads this
    {
      && nBlockSize == RESERVED_SIZE + Sum(c => SizeOf(mempool, c), entries)
      && nBlockSigChecks == RESERVED_CHECKS + Sum(c => ChecksOf(mempool, c), entries)
      && nFees == Sum(c => FeeOf(mempool, c), entries)
      && nBlockTx == |entries|
    }

    /** Room left, with nothing fitting into none. */
    ghost function Room(): nat
      reads this
    {
      if nBlockSize < nMaxGeneratedBlockSize then nMaxGeneratedBlockSize - nBlockSize else 0
    }

    ghost function CheckRoom(): nat
      reads this
    {
      if nBlockSigChecks < nMaxGeneratedBlockSigChecks then nMaxGeneratedBlockSigChecks - nBlockSigChecks else 0
    }

    /** A block that holds something is below its limits. */
    ghost predicate WithinLimits()
      reads this
    {
      entries != [] ==> nBlockSize < nMaxGeneratedBlockSize && nBlockSigChecks < nMaxGeneratedBlockSigChecks
    }

    constructor (pool: Pool, maxSize: Word64, maxChecks: nat, minFeeRate: int)
      ensures mempool == pool && nMaxGeneratedBlockSize == maxSize && nMaxGeneratedBlockSigChecks == maxChecks
      ensures blockMinFeeRate == minFeeRate && entries == [] && Totals()
    {
      mempool, blockMinFeeRate := pool, minFeeRate;
      nMaxGeneratedBlockSize, nMaxGeneratedBlockSigChecks := maxSize, maxChecks;
      entries, nBlockSize, nBlockTx, nBlockSigChecks, nFees := [], RESERVED_SIZE, 0, RESERVED_CHECKS, 0;
    }

    predicate TestTx(txSize: nat, txSigChecks: nat)
      reads this
    {
      nBlockSize + txSize < nMaxGeneratedBlockSize && nBlockSigChecks + txSigChecks < nMaxGeneratedBlockSigChecks
    }

    /** A transaction left out for its size or signature checks. */
    ghost predicate Unfit(c: TxId)
      reads this
    {
      c in mempool.entries && c !in entries && !TestTx(mempool.entries[c].size, mempool.entries[c].sigChecks)
    }

    method AddToBlock(iter: TxId)
      requires iter in mempool.entries && Totals()
      modifies this
      ensures entries == old(entries) + [iter] && Totals()
      ensures nBlockSize == old(nBlockSize) + mempool.entries[iter].size
      ensures nBlockSigChecks == old(nBlockSigChecks) + mempool.entries[iter].sigChecks
    {
      SumAdd(c => SizeOf(mempool, c), entries, iter);
      SumAdd(c => ChecksOf(mempool, c), entries, iter);
      SumAdd(c => FeeOf(mempool, c), entries, iter);
      var entry := mempool.entries[iter];
      entries := entries + [iter];
      nBlockSize := nBlockSize + entry.size;
      nBlockTx := nBlockTx + 1;
      nBlockSigChecks := nBlockSigChecks + entry.sigChecks;
      nFees := nFees + entry.fee;
    }

    /** What holds between two rounds, but for one transaction that is being dealt with. */
    ghost predicate Between(mi: nat, missing: map<TxId, nat>, skipped: set<TxId>, backlog: seq<TxId>, but: set<TxId>)
      reads this
    {
      && mi <= |mempool.order| && PoolOk(mempool) && Totals() && WithinLimits()
      && Queues(mempool, entries, mi, skipped, backlog)
      && Tracked(mempool, Elems(entries), missing)
      && Settled(mempool, entries, mi, skipped, backlog, Room(), CheckRoom(), but)
    }

    ghost function Bounds(): Limits
    {
      Limits(nMaxGeneratedBlockSize, nMaxGeneratedBlockSigChecks, blockMinFeeRate)
    }

    /** Tests one transaction and adds it or passes on it. */
    method Consider(x: TxId, isFromBacklog: bool, ghost mi: nat, missing: map<TxId, nat>, skipped: set<TxId>,
        backlog: seq<TxId>, failed: nat)
      returns (counts: map<TxId, nat>, skipped2: set<TxId>, backlog2: seq<TxId>, failed2: nat, giveUp: bool,
        ghost verdict: Verdict, ghost pushed: seq<TxId>)
      requires Between(mi, missing, skipped, backlog, {x})
      requires x in mempool.entries && x in mempool.order[..mi] && x !in entries && x !in backlog
      requires isFromBacklog ==> mempool.entries[x].parents <= Elems(entries)
      modifies this
      ensures Between(mi, counts, skipped2, backlog2, {})
      ensures VerdictIs(mempool, Bounds(), old(entries), Round(x, verdict))
      ensures entries == old(entries) + (if verdict == Added then [x] else [])
      ensures verdict != Added ==> entries == old(entries)
      ensures verdict == TooBig ==> Unfit(x)
      ensures skipped2 == skipped + (if verdict == Skipped then {x} else {})
      ensures failed2 == if verdict == Added then 0 else failed + (if verdict == TooBig then 1 else 0)
      ensures backlog2 == backlog + pushed && (verdict != Added ==> pushed == [])
      ensures verdict == Added ==>
                forall c :: c in pushed <==> Ready(mempool, Elems(old(entries)) + {x}, x, skipped, c)
      ensures giveUp <==>
                verdict == TooBig && failed2 > 1000 && nBlockSize > Minus64(nMaxGeneratedBlockSize, 1000)
    {
      hide Queues, Tracked, Settled, PoolOk, Sum, Counted, Minus64;
      counts, skipped2, backlog2, failed2, giveUp := missing, skipped, backlog, failed, false;
      verdict, pushed := Skipped, [];
      MissingMeans(mempool, Elems(entries), missing, x);
      RoomLeft(x);
      if !isFromBacklog && MissingParents(mempool, missing, x) {
        skipped2 := skipped + {x};
        Skip(mempool, entries, mi, skipped, backlog, Room(), CheckRoom(), x);
        return;
      }
      if !TestTx(mempool.entries[x].size, mempool.entries[x].sigChecks) {
        verdict := TooBig;
        Reject(mempool, entries, mi, skipped, backlog, Room(), CheckRoom(), x);
        failed2 := failed + 1;
        giveUp := failed2 > MAX_CONSECUTIVE_FAILURES && nBlockSize > Minus64(nMaxGeneratedBlockSize, 1000);
        return;
      }
      if !mempool.entries[x].final {
        verdict := NotFinal;
        Reject(mempool, entries, mi, skipped, backlog, Room(), CheckRoom(), x);
        return;
      }
      verdict, failed2 := Added, 0;
      ghost var block, room, checks := entries, Room(), CheckRoom();
      AddToBlock(x);
      var children := set c | c in mempool.entries && x in mempool.entries[c].parents;
      var ready;
      counts, ready := TrackChildren(mempool, Elems(block), x, missing, skipped, children);
      backlog2, pushed := backlog + ready, ready;
      AddQueues(mempool, block, mi, skipped, backlog, x, ready);
      AddSettled(mempool, block, mi, skipped, backlog, x, ready, room, checks, Room(), CheckRoom());
      assert Elems(entries) == Elems(block) + {x};
    }

    /** The running totals decide the limit test as the transactions themselves do. */
    lemma RoomLeft(x: TxId)
      requires Totals() && x in mempool.entries
      ensures BlockSize(mempool, entries) == nBlockSize
      ensures HasRoom(mempool, Bounds(), entries, x) <==> TestTx(mempool.entries[x].size, mempool.entries[x].sigChecks)
    {
      hide Sum;
    }

    /** Considers the transaction that comes next and records the round. */
    method Turn(x: TxId, isFromBacklog: bool, ghost mi0: nat, ghost mi: nat, missing: map<TxId, nat>,
        skipped: set<TxId>, ghost backlog0: seq<TxId>, backlog: seq<TxId>, failed: nat, ghost trace: seq<Round>)
      returns (counts: map<TxId, nat>, skipped2: set<TxId>, backlog2: seq<TxId>, failed2: nat, giveUp: bool,
        ghost now: seq<Round>)
      requires Between(mi, missing, skipped, backlog, {x})
      requires x in mempool.entries && x in mempool.order[..mi] && x !in entries && x !in backlog
      requires isFromBacklog ==> mempool.entries[x].parents <= Elems(entries)
      requires Recorded(mempool, Bounds(), trace, mi0, skipped, backlog0, entries, failed)
      requires !GivesUp(mempool, Bounds(), trace) && ComesNext(mempool, trace, x)
      requires mempool.entries[x].feeRate >= blockMinFeeRate
      requires forall c :: c in mempool.order[..mi] <==> c in mempool.order[..mi0] || c == x
      requires backlog == (if x in backlog0 then backlog0[1..] else backlog0) && (x in backlog0 ==> x == backlog0[0])
      modifies this
      ensures Between(mi, counts, skipped2, backlog2, {})
      ensures Recorded(mempool, Bounds(), now, mi, skipped2, backlog2, entries, failed2)
      ensures giveUp <==> GivesUp(mempool, Bounds(), now)
      ensures giveUp ==> exists c :: Unfit(c)
      ensures entries == old(entries) + [x] || (entries == old(entries) && backlog2 == backlog)
    {
      hide Queues, Tracked, Settled, PoolOk, Sum, Counted, Minus64, IsTrace, Follows, Taken, Failures, ComesNext,
        VerdictIs, GivesUp, Recorded, BlockSize, HasRoom, Ready, WithinLimits, Parents;
      ghost var block := entries;
      ghost var verdict, pushed;
      counts, skipped2, backlog2, failed2, giveUp, verdict, pushed :=
        Consider(x, isFromBacklog, mi, missing, skipped, backlog, failed);
      ReadyMeans(mempool, Elems(block) + {x}, x, skipped);
      RecordRound(mempool, Bounds(), trace, mi0, mi, skipped, backlog0, backlog, block, failed, Round(x, verdict),
        pushed);
      now := trace + [Round(x, verdict)];
      RoomLeft(x);
    }

    /** Fills the block; a time limit is a time point after which the clock may end the loop at any round. The
        record of the rounds tells which transactions were considered, and what became of them. */
    method AddTxs(nLimitTimePoint: int) returns (stop: Stop, ghost trace: seq<Round>)
      requires PoolOk(mempool) && entries == [] && Totals()
      modifies this
      ensures Distinct(entries) && Ordered(mempool, entries) && (forall c | c in entries :: c in mempool.entries)
      ensures Totals() && WithinLimits()
      ensures IsTrace(mempool, Bounds(), trace) && entries == Taken(trace)
      ensures stop == NearlyFull <==> GivesUp(mempool, Bounds(), trace)
      ensures stop == Done ==>
                forall c | ComesNext(mempool, trace, c) ::
                  c in mempool.entries && mempool.entries[c].feeRate < blockMinFeeRate
      ensures stop == Done ==> Maximal(mempool, entries, blockMinFeeRate, Room(), CheckRoom())
      ensures stop == TimedOut ==> nLimitTimePoint > 0
      ensures stop == NearlyFull ==> exists c :: Unfit(c)
    {
      hide Queues, Tracked, Settled, PoolOk, Sum, Totals, Ordered, Maximal, Counted, Minus64, IsTrace, Follows, Taken,
        Failures, ComesNext, VerdictIs, GivesUp, Recorded, BlockSize, HasRoom;
      var missing: map<TxId, nat>, skipped: set<TxId>, backlog: seq<TxId> := map[], {}, [];
      var failed, mi := 0, 0;
      trace := [];
      StartEmpty(mempool, Room(), CheckRoom());
      RecordedStart(mempool, Bounds());
      var timedOut: bool := *;
      timedOut := nLimitTimePoint > 0 && timedOut;
      while !timedOut && (backlog != [] || mi < |mempool.order|)
        invariant mi <= |mempool.order| && Between(mi, missing, skipped, backlog, {})
        invariant Recorded(mempool, Bounds(), trace, mi, skipped, backlog, entries, failed)
        invariant !GivesUp(mempool, Bounds(), trace)
        invariant timedOut ==> nLimitTimePoint > 0
        decreases |mempool.order| - |entries|, !timedOut, |mempool.order| - mi + |backlog|
      {
        var iter, isFromBacklog := TxId(0), false;
        ghost var mi0, backlog0 := mi, backlog;
        QueueNext(mempool, Bounds(), trace, mi, skipped, backlog, entries, failed);
        if backlog != [] {
          TakeFromBacklog(mempool, entries, mi, skipped, backlog, Room(), CheckRoom());
          BacklogHead(mempool, entries, mi, skipped, backlog);
          iter := backlog[0];
          backlog := backlog[1..];
          isFromBacklog := true;
        } else {
          TakeFromIndex(mempool, entries, mi, skipped, backlog, Room(), CheckRoom());
          IndexHead(mempool, mi);
          TakenPrefix(mempool, mi);
          iter := mempool.order[mi];
          mi := mi + 1;
        }
        if mempool.entries[iter].feeRate < blockMinFeeRate {
          FinishEarly(mempool, entries, mi, skipped, Room(), CheckRoom(), blockMinFeeRate);
          Summary(mempool, entries, mi, skipped, backlog);
          forall c | ComesNext(mempool, trace, c)
            ensures c in mempool.entries && mempool.entries[c].feeRate < blockMinFeeRate
          {
            NextUnique(mempool, trace, iter, c);
          }
          return Done, trace;
        }
        assert forall c :: c in mempool.order[..mi] <==> c in mempool.order[..mi0] || c == iter;
        var giveUp: bool;
        missing, skipped, backlog, failed, giveUp, trace :=
          Turn(iter, isFromBacklog, mi0, mi, missing, skipped, backlog0, backlog, failed, trace);
        Summary(mempool, entries, mi, skipped, backlog);
        if giveUp {
          QueueNext(mempool, Bounds(), trace, mi, skipped, backlog, entries, failed);
          return NearlyFull, trace;
        }
        timedOut := *;
        timedOut := nLimitTimePoint > 0 && timedOut;
      }
      Summary(mempool, entries, mi, skipped, backlog);
      QueueNext(mempool, Bounds(), trace, mi, skipped, backlog, entries, failed);
      if timedOut {
        return TimedOut, trace;
      }
      Finish(mempool, entries, mi, skipped, Room(), CheckRoom(), blockMinFeeRate);
      return Done, trace;
    }
  }

  predicate MissingParents(p: Pool, missing: map<TxId, nat>, x: TxId)
    requires x in p.entries
  {
    if x in missing then missing[x] != 0 else p.entries[x].parents != {}
  }

  lemma MissingMeans(p: Pool, added: set<TxId>, missing: map<TxId, nat>, x: TxId)
    requires x in p.entries && Tracked(p, added, missing)
    ensures MissingParents(p, missing, x) <==> !(p.entries[x].parents <= added)
  {
    var parents := p.entries[x].parents;
    assert Counted(p, added, missing, x);
    assert |parents - added| == 0 <==> parents <= added by {
      if |parents - added| == 0 { assert forall y | y in parents :: y !in parents - added; }
      if parents <= added { assert parents - added == {}; }
    }
    assert parents != {} && parents <= added ==> parents * added == parents;
  }

  /** Nothing left out could be added now: what is out lacks a parent, pays too little, is not final or does not fit. */
  ghost predicate Maximal(p: Pool, block: seq<TxId>, minFeeRate: int, room: nat, checks: nat)
  {
    forall c | c in p.entries ::
      c in block || Rejected(p, c, room, checks) || p.entries[c].feeRate < minFeeRate
        || !(Parents(p, c) <= Elems(block))
  }

  lemma StartEmpty(p: Pool, room: nat, checks: nat)
    ensures Queues(p, [], 0, {}, []) && Tracked(p, Elems([]), map[]) && Settled(p, [], 0, {}, [], room, checks, {})
  {
    assert Elems([]) == {};
  }

  lemma IndexHead(p: Pool, mi: nat)
    requires PoolOk(p) && mi < |p.order|
    ensures p.order[mi] in p.entries && p.order[mi] in p.order[..mi + 1]
  {
    assert p.order[..mi + 1][mi] == p.order[mi];
    assert p.order[mi] in p.order;
  }

  lemma BacklogHead(p: Pool, block: seq<TxId>, mi: nat, skipped: set<TxId>, backlog: seq<TxId>)
    requires PoolOk(p) && Queues(p, block, mi, skipped, backlog) && backlog != []
    ensures backlog[0] in p.entries && backlog[0] in p.order[..mi] && backlog[0] in skipped && backlog[0] !in block
    ensures p.entries[backlog[0]].parents <= Elems(block)
  {
    assert backlog[0] in backlog;
    assert forall c | c in p.order[..mi] :: c in p.order;
  }

  lemma Summary(p: Pool, block: seq<TxId>, mi: nat, skipped: set<TxId>, backlog: seq<TxId>)
    requires PoolOk(p) && Queues(p, block, mi, skipped, backlog)
    ensures Distinct(block) && Ordered(p, block) && |block| <= |p.order| && forall c | c in block :: c in p.entries
  {
    assert forall c | c in block :: c in p.order;
    DistinctLength(block, p.order);
  }

  lemma {:induction false} DistinctLength(s: seq<TxId>, t: seq<TxId>)
    requires Distinct(s) && forall c | c in s :: c in t
    ensures |s| <= |t|
    decreases |s|
  {
    if s != [] {
      var n := |s| - 1;
      assert s[n] in s;
      var k :| 0 <= k < |t| && t[k] == s[n];
      var rest := t[..k] + t[k + 1..];
      forall c | c in s[..n] ensures c in rest {
        assert c in s && c != s[n];
        var j :| 0 <= j < |t| && t[j] == c;
        assert rest[if j < k then j else j - 1] == c;
      }
      DistinctLength(s[..n], rest);
    }
  }

  /** With both queues empty nothing more can be added. */
  lemma Finish(p: Pool, block: seq<TxId>, mi: nat, skipped: set<TxId>, room: nat, checks: nat, minFeeRate: int)
    requires PoolOk(p) && mi == |p.order| && Settled(p, block, mi, skipped, [], room, checks, {})
    ensures Maximal(p, block, minFeeRate, room, checks)
  {
    assert p.order[..mi] == p.order;
    forall c | c in p.entries
      ensures c in block || Rejected(p, c, room, checks) || p.entries[c].feeRate < minFeeRate
        || !(Parents(p, c) <= Elems(block))
    {
      assert c in p.order[..mi] && c !in {};
      assert Passed(p, block, skipped, [], room, checks, c);
    }
  }

  /** The first transaction that pays too little is followed by none that pays enough. */
  lemma FinishEarly(p: Pool, block: seq<TxId>, mi: nat, skipped: set<TxId>, room: nat, checks: nat, minFeeRate: int)
    requires PoolOk(p) && 0 < mi <= |p.order| && p.entries[p.order[mi - 1]].feeRate < minFeeRate
    requires Settled(p, block, mi, skipped, [], room, checks, {p.order[mi - 1]})
    ensures Maximal(p, block, minFeeRate, room, checks)
  {
    forall c | c in p.entries
      ensures c in block || Rejected(p, c, room, checks) || p.entries[c].feeRate < minFeeRate
        || !(Parents(p, c) <= Elems(block))
    {
      assert c in p.order;
      var i :| 0 <= i < |p.order| && p.order[i] == c;
      if i < mi - 1 {
        assert p.order[..mi][i] == c && c != p.order[mi - 1];
        assert Passed(p, block, skipped, [], room, checks, c);
      }
    }
  }

  // ---- Nothing is left out without a reason -------------------------------

  /** The whole mempool passes every test. */
  ghost predicate AllWelcome(p: Pool, minFeeRate: int, maxSize: nat, maxChecks: nat)
  {
    && (forall c | c in p.entries :: p.entries[c].final && p.entries[c].feeRate >= minFeeRate)
    && RESERVED_SIZE + Sum(c => SizeOf(p, c), p.order) < maxSize
    && RESERVED_CHECKS + Sum(c => ChecksOf(p, c), p.order) < maxChecks
  }

  /** Any transaction of such a mempool fits beside any others. */
  lemma Fits(a: BlockAssembler, c: TxId)
    requires PoolOk(a.mempool) && a.Totals() && Distinct(a.entries)
      && (forall d | d in a.entries :: d in a.mempool.entries)
    requires AllWelcome(a.mempool, a.blockMinFeeRate, a.nMaxGeneratedBlockSize, a.nMaxGeneratedBlockSigChecks)
    requires c in a.mempool.entries && c !in a.entries
    ensures a.TestTx(a.mempool.entries[c].size, a.mempool.entries[c].sigChecks)
    ensures !Rejected(a.mempool, c, a.Room(), a.CheckRoom())
  {
    hide Sum;
    var p, all := a.mempool, a.entries + [c];
    Concatenated(a.entries, [c]);
    forall d | d in Elems(all) ensures d in Elems(p.order) {}
    SumPart(d => SizeOf(p, d), all, p.order);
    SumPart(d => ChecksOf(p, d), all, p.order);
    SumAdd(d => SizeOf(p, d), a.entries, c);
    SumAdd(d => ChecksOf(p, d), a.entries, c);
  }

  lemma {:induction false} Included(a: BlockAssembler, c: TxId)
    requires PoolOk(a.mempool) && a.Totals() && Distinct(a.entries)
      && (forall d | d in a.entries :: d in a.mempool.entries)
    requires AllWelcome(a.mempool, a.blockMinFeeRate, a.nMaxGeneratedBlockSize, a.nMaxGeneratedBlockSigChecks)
    requires Maximal(a.mempool, a.entries, a.blockMinFeeRate, a.Room(), a.CheckRoom())
    requires c in a.mempool.entries
    ensures c in a.entries
    decreases a.mempool.entries[c].entryId
  {
    hide Sum, Rejected;
    if c !in a.entries {
      Fits(a, c);
      forall y | y in a.mempool.entries[c].parents ensures y in Elems(a.entries) {
        Included(a, y);
      }
    }
  }

  /** Without a time limit a mempool that passes every test ends up in the block as a whole. */
  lemma WholePool(a: BlockAssembler, stop: Stop)
    requires PoolOk(a.mempool) && a.Totals() && Distinct(a.entries)
      && (forall d | d in a.entries :: d in a.mempool.entries)
    requires AllWelcome(a.mempool, a.blockMinFeeRate, a.nMaxGeneratedBlockSize, a.nMaxGeneratedBlockSigChecks)
    requires stop == Done ==> Maximal(a.mempool, a.entries, a.blockMinFeeRate, a.Room(), a.CheckRoom())
    requires stop == NearlyFull ==> exists c :: a.Unfit(c)
    requires stop != TimedOut
    ensures stop == Done && Elems(a.entries) == a.mempool.entries.Keys
    ensures a.nFees == Sum(c => FeeOf(a.mempool, c), a.entries)
  {
    hide Sum, Maximal, AllWelcome;
    if stop == NearlyFull {
      var c :| a.Unfit(c);
      Fits(a, c);
    } else {
      forall c | c in a.mempool.entries ensures c in a.entries { Included(a, c); }
    }
  }
}
