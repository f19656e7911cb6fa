/** The mempool as block assembly sees it, and the record of what it considers. */
module MinerTrace {

  datatype TxId = TxId(n: nat)

  /** A mempool entry; `final` says that the contextual checks for the next block accept it. */
  datatype Entry = Entry(size: nat, sigChecks: nat, fee: int, feeRate: int, entryId: nat, final: bool,
      parents: set<TxId>)

  /** The entries, and the order of the index by modified fee rate. */
  datatype Pool = Pool(entries: map<TxId, Entry>, order: seq<TxId>)

  ghost predicate Distinct(s: seq<TxId>)
  {
    forall i, j | 0 <= i < j < |s| :: s[i] != s[j]
  }

  function Elems(s: seq<TxId>): set<TxId>
  {
    set x | x in s
  }

  /** The index lists every entry once, best fee rate first; parents are entries with a lower entry id. */
  ghost predicate PoolOk(p: Pool)
  {
    && Distinct(p.order) && (forall x :: x in p.order <==> x in p.entries)
    && (forall i, j | 0 <= i < j < |p.order| :: p.entries[p.order[i]].feeRate >= p.entries[p.order[j]].feeRate)
    && forall x, y | x in p.entries && y in p.entries[x].parents ::
      y in p.entries && p.entries[y].entryId < p.entries[x].entryId
  }

  ghost function Parents(p: Pool, c: TxId): set<TxId>
  {
    if c in p.entries then p.entries[c].parents else {}
  }

  ghost function SizeOf(p: Pool, c: TxId): nat { if c in p.entries then p.entries[c].size else 0 }
  ghost function ChecksOf(p: Pool, c: TxId): nat { if c in p.entries then p.entries[c].sigChecks else 0 }
  ghost function FeeOf(p: Pool, c: TxId): int { if c in p.entries then p.entries[c].fee else 0 }

  ghost function Sum(f: TxId -> int, s: seq<TxId>): int
  {
    if s == [] then 0 else Sum(f, s[..|s| - 1]) + f(s[|s| - 1])
  }

  lemma SumAdd(f: TxId -> int, s: seq<TxId>, x: TxId)
    ensures Sum(f, s + [x]) == Sum(f, s) + f(x)
  {
    assert (s + [x])[..|s|] == s;
  }

  // ---- The rounds of an assembly ------------------------------------------

  /** What became of a transaction: passed over for a missing parent, beyond the limits, not final, or added. */
  datatype Verdict = Skipped | TooBig | NotFinal | Added

  datatype Round = Round(tx: TxId, verdict: Verdict)

  datatype Limits = Limits(maxSize: nat, maxChecks: nat, minFeeRate: int)

  /** The block that a record leads to. */
  ghost function Taken(trace: seq<Round>): seq<TxId>
  {
    if trace == [] then []
    else
      var n := |trace| - 1;
      Taken(trace[..n]) + (if trace[n].verdict == Added then [trace[n].tx] else [])
  }

  /** How many transactions were beyond the limits since the last one that was added. */
  ghost function Failures(trace: seq<Round>): nat
  {
    if trace == [] then 0
    else
      var n := |trace| - 1;
      match trace[n].verdict
      case Added => 0
      case TooBig => Failures(trace[..n]) + 1
      case _ => Failures(trace[..n])
  }

  /** The size of a block with the space reserved for the coinbase. */
  ghost function BlockSize(p: Pool, block: seq<TxId>): int
  {
    1000 + Sum(c => SizeOf(p, c), block)
  }

  ghost function BlockChecks(p: Pool, block: seq<TxId>): int
  {
    100 + Sum(c => ChecksOf(p, c), block)
  }

  ghost predicate HasRoom(p: Pool, l: Limits, block: seq<TxId>, c: TxId)
  {
    && BlockSize(p, block) + SizeOf(p, c) < l.maxSize
    && BlockChecks(p, block) + ChecksOf(p, c) < l.maxChecks
  }

  /** What becomes of a transaction that is considered after a block. */
  ghost predicate VerdictIs(p: Pool, l: Limits, block: seq<TxId>, r: Round)
  {
    && r.tx in p.entries
    && (r.verdict == Skipped <==> !(Parents(p, r.tx) <= Elems(block)))
    && (r.verdict == TooBig <==> r.verdict != Skipped && !HasRoom(p, l, block, r.tx))
    && (r.verdict == Added ==> p.entries[r.tx].final)
    && (r.verdict == NotFinal ==> !p.entries[r.tx].final)
  }

  /** A thousand bytes below the size limit, in unsigned 64-bit arithmetic. */
  ghost function Margin(l: Limits): int
  {
    if l.maxSize < 1000 then l.maxSize + 0x1_0000_0000_0000_0000 - 1000 else l.maxSize - 1000
  }

  /** The assembly gives up: more than a thousand failures since the last addition, and less than a thousand
      bytes left. */
  ghost predicate GivesUp(p: Pool, l: Limits, trace: seq<Round>)
  {
    Failures(trace) > 1000 && BlockSize(p, Taken(trace)) > Margin(l)
  }

  ghost predicate Considered(trace: seq<Round>, c: TxId)
  {
    exists v :: Round(c, v) in trace
  }

  /** Dealt with for good. */
  ghost predicate Decided(trace: seq<Round>, c: TxId)
  {
    exists v :: v != Skipped && Round(c, v) in trace
  }

  /** Passed over earlier, and all its parents are there by now. */
  ghost predicate Waits(p: Pool, trace: seq<Round>, c: TxId)
  {
    Round(c, Skipped) in trace && !Decided(trace, c) && Parents(p, c) <= Elems(Taken(trace))
  }

  /** The parents of c are among the first n transactions of the block. */
  ghost predicate ReadyAfter(p: Pool, block: seq<TxId>, c: TxId, n: nat)
  {
    n <= |block| && Parents(p, c) <= Elems(block[..n])
  }

  ghost predicate NoneWaits(p: Pool, trace: seq<Round>)
  {
    forall d :: !Waits(p, trace, d)
  }

  /** The transaction to be considered next: of those that wait for no parent any more, one that became ready
      first; if there is none, the first of the index that was not considered yet. */
  ghost predicate ComesNext(p: Pool, trace: seq<Round>, c: TxId)
  {
    if !NoneWaits(p, trace) then
      && Waits(p, trace, c)
      && forall d, n: nat | Waits(p, trace, d) && ReadyAfter(p, Taken(trace), d, n) :: ReadyAfter(p, Taken(trace), c, n)
    else
      && !Considered(trace, c)
      && exists i :: 0 <= i < |p.order| && p.order[i] == c && forall j | 0 <= j < i :: Considered(trace, p.order[j])
  }

  ghost predicate RoundOk(p: Pool, l: Limits, trace: seq<Round>, k: nat)
    requires k < |trace|
  {
    var before := trace[..k];
    && ComesNext(p, before, trace[k].tx) && VerdictIs(p, l, Taken(before), trace[k])
    && p.entries[trace[k].tx].feeRate >= l.minFeeRate && !GivesUp(p, l, before)
  }

  /** Each transaction was next in turn, paid enough, got the verdict it deserved after the block so far, and was
      considered before the assembly had reason to give up. */
  ghost predicate IsTrace(p: Pool, l: Limits, trace: seq<Round>)
  {
    forall k: nat | k < |trace| :: RoundOk(p, l, trace, k)
  }

  // ---- One more round -----------------------------------------------------

  lemma OneMore(trace: seq<Round>, r: Round)
    ensures Taken(trace + [r]) == Taken(trace) + (if r.verdict == Added then [r.tx] else [])
    ensures Failures(trace + [r]) ==
            if r.verdict == Added then 0 else Failures(trace) + (if r.verdict == TooBig then 1 else 0)
    ensures forall c :: Considered(trace + [r], c) <==> Considered(trace, c) || c == r.tx
    ensures forall c :: Decided(trace + [r], c) <==> Decided(trace, c) || (c == r.tx && r.verdict != Skipped)
  {
    var now := trace + [r];
    assert now[..|trace|] == trace;
    forall c ensures Considered(now, c) <==> Considered(trace, c) || c == r.tx {
      if Considered(trace, c) {
        var v :| Round(c, v) in trace;
        assert Round(c, v) in now;
      }
      if c == r.tx { assert Round(c, r.verdict) in now; }
    }
    forall c ensures Decided(now, c) <==> Decided(trace, c) || (c == r.tx && r.verdict != Skipped) {
      if Decided(trace, c) {
        var v :| v != Skipped && Round(c, v) in trace;
        assert Round(c, v) in now;
      }
      if c == r.tx { assert Round(c, r.verdict) in now; }
    }
  }

  lemma TraceGrows(p: Pool, l: Limits, trace: seq<Round>, r: Round)
    requires IsTrace(p, l, trace) && ComesNext(p, trace, r.tx) && VerdictIs(p, l, Taken(trace), r)
    requires p.entries[r.tx].feeRate >= l.minFeeRate && !GivesUp(p, l, trace)
    ensures IsTrace(p, l, trace + [r])
  {
    hide ComesNext, VerdictIs, GivesUp, Taken;
    var now := trace + [r];
    forall k: nat | k < |now| ensures RoundOk(p, l, now, k) {
      assert now[..k] == trace[..k];
      if k < |trace| {
        assert RoundOk(p, l, trace, k);
      } else {
        assert trace[..k] == trace;
      }
    }
  }

  // ---- The queues follow the record ---------------------------------------

  /** Of two queued transactions the first one became ready no later. */
  ghost predicate InTurn(p: Pool, block: seq<TxId>, backlog: seq<TxId>)
  {
    forall i, j, n: nat | 0 <= i < j < |backlog| && ReadyAfter(p, block, backlog[j], n) ::
      ReadyAfter(p, block, backlog[i], n)
  }

  /** The cursor, the skipped transactions and the backlog are what the record says. */
  ghost predicate Follows(p: Pool, trace: seq<Round>, mi: nat, skipped: set<TxId>, backlog: seq<TxId>)
  {
    && mi <= |p.order|
    && (forall c :: Considered(trace, c) <==> c in p.order[..mi])
    && (forall c :: c in skipped <==> Round(c, Skipped) in trace)
    && (forall c :: c in backlog <==> Waits(p, trace, c))
    && (forall c | Decided(trace, c) :: Parents(p, c) <= Elems(Taken(trace)))
    && InTurn(p, Taken(trace), backlog)
  }

  lemma FollowsStart(p: Pool)
    ensures Follows(p, [], 0, {}, [])
  {
  }

  /** The head of the backlog comes next. */
  lemma BacklogNext(p: Pool, trace: seq<Round>, mi: nat, skipped: set<TxId>, backlog: seq<TxId>)
    requires Follows(p, trace, mi, skipped, backlog) && backlog != []
    ensures ComesNext(p, trace, backlog[0])
  {
    hide ReadyAfter, Taken, Considered, Decided;
    var x := backlog[0];
    assert x in backlog;
    forall d, n: nat | Waits(p, trace, d) && ReadyAfter(p, Taken(trace), d, n)
      ensures ReadyAfter(p, Taken(trace), x, n)
    {
      assert d in backlog;
      var j :| 0 <= j < |backlog| && backlog[j] == d;
    }
  }

  /** With an empty backlog the transaction under the cursor comes next. */
  lemma IndexNext(p: Pool, trace: seq<Round>, mi: nat, skipped: set<TxId>)
    requires PoolOk(p) && Follows(p, trace, mi, skipped, []) && mi < |p.order|
    ensures ComesNext(p, trace, p.order[mi])
  {
    hide Taken, Decided, Considered;
    assert NoneWaits(p, trace) by {
      forall d ensures !Waits(p, trace, d) { assert d !in []; }
    }
    forall j | 0 <= j < mi ensures Considered(trace, p.order[j]) { assert p.order[..mi][j] == p.order[j]; }
    assert p.order[mi] !in p.order[..mi];
  }

  /** With nothing queued and the index used up nothing comes next. */
  lemma NoneNext(p: Pool, trace: seq<Round>, skipped: set<TxId>, c: TxId)
    requires PoolOk(p) && Follows(p, trace, |p.order|, skipped, [])
    ensures !ComesNext(p, trace, c)
  {
    hide Taken, Decided, Considered;
    assert NoneWaits(p, trace) by {
      forall d ensures !Waits(p, trace, d) { assert d !in []; }
    }
    assert p.order[..|p.order|] == p.order;
  }

  /** At most one transaction is the first of the index. */
  lemma NextUnique(p: Pool, trace: seq<Round>, c: TxId, d: TxId)
    requires NoneWaits(p, trace) && ComesNext(p, trace, c) && ComesNext(p, trace, d)
    ensures c == d
  {
    hide Considered, Waits;
  }

  /** A transaction that was not added leaves the queues as they are without it. */
  lemma FollowsOut(p: Pool, trace: seq<Round>, mi: nat, mi2: nat, skipped: set<TxId>, backlog: seq<TxId>,
      rest: seq<TxId>, r: Round)
    requires Follows(p, trace, mi, skipped, backlog) && mi2 <= |p.order|
    requires forall c :: c in p.order[..mi2] <==> c in p.order[..mi] || c == r.tx
    requires rest == (if r.tx in backlog then backlog[1..] else backlog) && r.tx !in rest
    requires r.tx in backlog ==> r.tx == backlog[0]
    requires r.verdict != Added
    requires r.verdict == Skipped ==> r.tx !in backlog && !(Parents(p, r.tx) <= Elems(Taken(trace)))
    requires r.verdict != Skipped ==> Parents(p, r.tx) <= Elems(Taken(trace))
    ensures Follows(p, trace + [r], mi2, if r.verdict == Skipped then skipped + {r.tx} else skipped, rest)
  {
    hide Taken, Considered, Decided, ReadyAfter;
    OneMore(trace, r);
    var now := trace + [r];
    assert forall c :: c in backlog <==> (c == r.tx && r.tx in backlog) || c in rest;
    forall c ensures c in rest <==> Waits(p, now, c) {
      assert Round(c, Skipped) in now <==> Round(c, Skipped) in trace || Round(c, Skipped) == r;
      assert c in backlog <==> Waits(p, trace, c);
    }
    forall i, j, n: nat | 0 <= i < j < |rest| && ReadyAfter(p, Taken(now), rest[j], n)
      ensures ReadyAfter(p, Taken(now), rest[i], n)
    {
      var k := if r.tx in backlog then 1 else 0;
      assert backlog[i + k] == rest[i] && backlog[j + k] == rest[j] && Taken(now) == Taken(trace);
      assert ReadyAfter(p, Taken(trace), backlog[j + k], n);
    }
  }

  /** A transaction that was added lets the skipped children queue for which it was the last parent. */
  lemma FollowsAdded(p: Pool, trace: seq<Round>, mi: nat, mi2: nat, skipped: set<TxId>, backlog: seq<TxId>,
      rest: seq<TxId>, x: TxId, pushed: seq<TxId>)
    requires Follows(p, trace, mi, skipped, backlog) && mi2 <= |p.order|
    requires forall c :: c in p.order[..mi2] <==> c in p.order[..mi] || c == x
    requires rest == (if x in backlog then backlog[1..] else backlog) && x !in rest
    requires x in backlog ==> x == backlog[0]
    requires x !in Taken(trace) && Parents(p, x) <= Elems(Taken(trace))
    requires forall c :: c in pushed <==>
               x in Parents(p, c) && c in skipped && Parents(p, c) <= Elems(Taken(trace)) + {x}
    ensures Follows(p, trace + [Round(x, Added)], mi2, skipped, rest + pushed)
  {
    hide Taken, Considered, Decided, ReadyAfter;
    var r, block := Round(x, Added), Taken(trace);
    OneMore(trace, r);
    var now := trace + [r];
    assert Elems(block + [x]) == Elems(block) + {x};
    assert forall c :: c in backlog <==> (c == x && x in backlog) || c in rest;
    forall c ensures c in rest + pushed <==> Waits(p, now, c) {
      assert Round(c, Skipped) in now <==> Round(c, Skipped) in trace;
      assert c in backlog <==> Waits(p, trace, c);
      if Waits(p, now, c) && c !in rest {
        assert !(Parents(p, c) <= Elems(block));
        assert x in Parents(p, c);
      }
    }
    InTurnAdded(p, block, backlog, rest, x, pushed);
  }

  lemma InTurnAdded(p: Pool, block: seq<TxId>, backlog: seq<TxId>, rest: seq<TxId>, x: TxId, pushed: seq<TxId>)
    requires InTurn(p, block, backlog) && rest == (if x in backlog then backlog[1..] else backlog)
    requires x !in block && forall c | c in pushed :: x in Parents(p, c) && Parents(p, c) <= Elems(block + [x])
    requires forall c | c in rest :: Parents(p, c) <= Elems(block)
    ensures InTurn(p, block + [x], rest + pushed)
  {
    var all, queue := block + [x], rest + pushed;
    forall i, j, n: nat | 0 <= i < j < |queue| && ReadyAfter(p, all, queue[j], n)
      ensures ReadyAfter(p, all, queue[i], n)
    {
      assert queue[i] in queue && queue[j] in queue;
      if n == |all| {
        assert all[..n] == all && Elems(block) <= Elems(all);
      } else {
        assert all[..n] == block[..n];
        assert x !in Elems(block[..n]);
        assert queue[j] !in pushed && j < |rest|;
        var k := if x in backlog then 1 else 0;
        assert backlog[i + k] == queue[i] && backlog[j + k] == queue[j];
        assert ReadyAfter(p, block, backlog[j + k], n);
      }
    }
  }

  /** The record, the block, the failures and the queues agree. */
  ghost predicate Recorded(p: Pool, l: Limits, trace: seq<Round>, mi: nat, skipped: set<TxId>, backlog: seq<TxId>,
      block: seq<TxId>, failed: nat)
  {
    && IsTrace(p, l, trace) && Follows(p, trace, mi, skipped, backlog)
    && Taken(trace) == block && Failures(trace) == failed
  }

  lemma RecordedStart(p: Pool, l: Limits)
    ensures Recorded(p, l, [], 0, {}, [], [], 0) && !GivesUp(p, l, [])
  {
    FollowsStart(p);
  }

  /** One more round: taking x from one of the queues, its verdict, and the children it makes ready. */
  lemma RecordRound(p: Pool, l: Limits, trace: seq<Round>, mi: nat, mi2: nat, skipped: set<TxId>, backlog: seq<TxId>,
      rest: seq<TxId>, block: seq<TxId>, failed: nat, r: Round, pushed: seq<TxId>)
    requires Recorded(p, l, trace, mi, skipped, backlog, block, failed) && !GivesUp(p, l, trace) && mi2 <= |p.order|
    requires ComesNext(p, trace, r.tx) && VerdictIs(p, l, block, r) && p.entries[r.tx].feeRate >= l.minFeeRate
    requires forall c :: c in p.order[..mi2] <==> c in p.order[..mi] || c == r.tx
    requires rest == (if r.tx in backlog then backlog[1..] else backlog) && r.tx !in rest && r.tx !in block
    requires r.tx in backlog ==> r.tx == backlog[0]
    requires r.verdict != Added ==> pushed == []
    requires r.verdict == Added ==>
               forall c :: c in pushed <==>
                 r.tx in Parents(p, c) && c in skipped && Parents(p, c) <= Elems(block) + {r.tx}
    ensures Recorded(p, l, trace + [r], mi2, skipped + (if r.verdict == Skipped then {r.tx} else {}), rest + pushed,
              block + (if r.verdict == Added then [r.tx] else []),
              if r.verdict == Added then 0 else failed + (if r.verdict == TooBig then 1 else 0))
    ensures GivesUp(p, l, trace + [r]) <==>
              r.verdict == TooBig && failed + 1 > 1000 && BlockSize(p, block) > Margin(l)
  {
    hide IsTrace, Follows, Taken, Failures, ComesNext, Sum;
    OneMore(trace, r);
    TraceGrows(p, l, trace, r);
    assert rest + [] == rest && skipped + {} == skipped && block + [] == block;
    if r.verdict == Added {
      FollowsAdded(p, trace, mi, mi2, skipped, backlog, rest, r.tx, pushed);
    } else {
      if r.tx in backlog { BacklogReady(p, trace, mi, skipped, backlog, r.tx); }
      FollowsOut(p, trace, mi, mi2, skipped, backlog, rest, r);
    }
  }

  lemma BacklogReady(p: Pool, trace: seq<Round>, mi: nat, skipped: set<TxId>, backlog: seq<TxId>, x: TxId)
    requires Follows(p, trace, mi, skipped, backlog) && x in backlog
    ensures Parents(p, x) <= Elems(Taken(trace))
  {
    hide Taken;
    assert Waits(p, trace, x);
  }

  /** Whatever was considered paid enough. */
  lemma PaidEnough(p: Pool, l: Limits, trace: seq<Round>, r: Round)
    requires IsTrace(p, l, trace) && r in trace
    ensures r.tx in p.entries && p.entries[r.tx].feeRate >= l.minFeeRate
  {
    hide ComesNext, GivesUp, Taken;
    var k :| 0 <= k < |trace| && trace[k] == r;
    assert RoundOk(p, l, trace, k);
  }

  /** Which transaction comes next, from the queues; a queued one has paid enough. */
  lemma QueueNext(p: Pool, l: Limits, trace: seq<Round>, mi: nat, skipped: set<TxId>, backlog: seq<TxId>,
      block: seq<TxId>, failed: nat)
    requires PoolOk(p) && Recorded(p, l, trace, mi, skipped, backlog, block, failed)
    ensures IsTrace(p, l, trace) && Taken(trace) == block
    ensures backlog == [] ==> NoneWaits(p, trace)
    ensures backlog == [] && mi < |p.order| ==> ComesNext(p, trace, p.order[mi])
    ensures backlog == [] && mi >= |p.order| ==> forall c :: !ComesNext(p, trace, c)
    ensures backlog != [] ==>
              && ComesNext(p, trace, backlog[0])
              && backlog[0] in p.entries && p.entries[backlog[0]].feeRate >= l.minFeeRate
  {
    hide IsTrace, Taken, Failures, ComesNext;
    if backlog == [] {
      assert NoneWaits(p, trace) by {
        forall d ensures !Waits(p, trace, d) { assert d !in []; }
      }
      if mi < |p.order| {
        IndexNext(p, trace, mi, skipped);
      } else {
        forall c ensures !ComesNext(p, trace, c) { NoneNext(p, trace, skipped, c); }
      }
    } else {
      BacklogNext(p, trace, mi, skipped, backlog);
      assert Waits(p, trace, backlog[0]) by { assert backlog[0] in backlog; }
      PaidEnough(p, l, trace, Round(backlog[0], Skipped));
    }
  }
}
