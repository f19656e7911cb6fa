/** The script-check queue: one master and any number of workers sharing a stack of checks under a
    mutex, with a condition variable for each side. Every critical section, and the evaluation of a
    batch outside the lock, is one atomic step. */
module CheckQueue {

  /** A verification and the outcome it has when evaluated. */
  datatype Check = Check(id: nat, ok: bool)

  /** Where a thread is.
      Outside: not in the loop (the master between two waits).
      AtTop: about to take the lock at the top of the loop.
      Asleep: waiting on its condition variable. Woken: notified or spuriously woken, about to retake the lock.
      Working: evaluating its batch without the lock. */
  datatype Pc = Outside | AtTop | Asleep | Woken | Working

  /** A thread's locals; nNow is the size of its last batch, 0 before the first one. */
  datatype Thread = Thread(pc: Pc, nNow: nat, fOk: bool, batch: seq<Check>)

  /** A finished wait: the checks added for it, what it returned, and the checks that threads dealt with. */
  datatype Round = Round(checks: seq<Check>, ok: bool, handled: seq<Check>)

  /** Thread 0 is the master. added collects the checks since the last wait returned, done those of them
      that a thread has dealt with, and rounds the finished waits; nothing in the protocol depends on them. */
  datatype State = State(
    queue: seq<Check>, nIdle: int, nTotal: int, fAllOk: bool, nTodo: int, threads: seq<Thread>,
    added: seq<Check>, done: seq<Check>, rounds: seq<Round>)

  datatype Action =
    | AddChecks(checks: seq<Check>, notified: nat)
    | CallWait
    | Lock(t: nat)
    | Relock(t: nat)
    | Evaluate(t: nat)
    | SpuriousWake(t: nat)

  predicate AllOk(checks: seq<Check>)
  {
    forall i | 0 <= i < |checks| :: checks[i].ok
  }

  function Max(x: int, y: int): int { if x < y then y else x }
  function Min(x: int, y: int): int { if x < y then x else y }

  /** The last n elements, last first: what popping n times from the back yields. */
  function PopBack(queue: seq<Check>, n: nat): seq<Check>
    requires n <= |queue|
  {
    if n == 0 then [] else [queue[|queue| - 1]] + PopBack(queue[..|queue| - 1], n - 1)
  }

  // ---- The steps ----------------------------------------------------------

  /** The largest batch within the limit and within a thread's share of the queue, but never none. */
  function BatchSize(q: State, nBatchSize: nat): (n: nat)
    requires |q.queue| > 0 && q.nTotal + q.nIdle + 1 > 0
    ensures 1 <= n <= |q.queue|
    ensures n == 1 || (n <= nBatchSize && n * (q.nTotal + q.nIdle + 1) <= |q.queue|)
    ensures n + 1 > nBatchSize || (n + 1) * (q.nTotal + q.nIdle + 1) > |q.queue|
  {
    var share := |q.queue| / (q.nTotal + q.nIdle + 1);
    ShareFits(|q.queue|, q.nTotal + q.nIdle + 1);
    ShareIs(|q.queue|, q.nTotal + q.nIdle + 1, Max(1, Min(nBatchSize, share)), nBatchSize);
    Max(1, Min(nBatchSize, share))
  }

  lemma ShareIs(len: nat, d: int, n: nat, limit: nat)
    requires d > 0 && n == Max(1, Min(limit, len / d))
    ensures n == 1 || (n <= limit && n * d <= len)
    ensures n + 1 > limit || (n + 1) * d > len
  {
    var k, r := len / d, len % d;
    assert len == k * d + r;
    if n <= k { Scaled(n, k, d); }
    if k <= n { Scaled(k, n, d); }
    assert (n + 1) * d == n * d + d;
  }

  lemma Scaled(a: nat, b: nat, d: int)
    requires a <= b && d > 0
    ensures a * d <= b * d
  {
  }

  lemma ShareFits(n: nat, d: int)
    requires d > 0
    ensures 0 <= n / d <= n
  {
    QuotientFits(n, d, n / d, n % d);
  }

  lemma QuotientFits(n: int, d: int, k: int, r: int)
    requires n == d * k + r && 0 <= r < d && 0 <= n
    ensures 0 <= k <= n
  {
    assert k < 0 ==> d * k <= -d;
    assert k >= 0 ==> (d - 1) * k >= 0;
  }

  /** A thread that holds the lock tests the queue: it returns, goes to sleep, or takes a batch. */
  function Decide(q: State, t: nat, nBatchSize: nat): State
    requires t < |q.threads| && q.nTotal + q.nIdle + 1 > 0
  {
    var me := q.threads[t];
    if q.queue == [] then
      if t == 0 && q.nTodo == 0 then
        q.(nTotal := q.nTotal - 1, fAllOk := true, threads := q.threads[t := me.(pc := Outside)],
           added := [], done := [], rounds := q.rounds + [Round(q.added, q.fAllOk, q.done)])
      else
        q.(nIdle := q.nIdle + 1, threads := q.threads[t := me.(pc := Asleep)])
    else
      var n := BatchSize(q, nBatchSize);
      q.(queue := q.queue[..|q.queue| - n],
         threads := q.threads[t := Thread(Working, n, q.fAllOk, PopBack(q.queue, n))])
  }

  function WakeMaster(threads: seq<Thread>): seq<Thread>
    requires |threads| > 0
  {
    if threads[0].pc == Asleep then threads[0 := threads[0].(pc := Woken)] else threads
  }

  /** The clean-up at the top of the loop. */
  function CleanUp(q: State, t: nat): State
    requires t < |q.threads|
  {
    var me := q.threads[t];
    if me.nNow != 0 then
      var q' := q.(fAllOk := q.fAllOk && me.fOk, nTodo := q.nTodo - me.nNow);
      if q'.nTodo == 0 && t != 0 then q'.(threads := WakeMaster(q'.threads)) else q'
    else
      q.(nTotal := q.nTotal + 1)
  }

  function WakeWorkers(threads: seq<Thread>): seq<Thread>
  {
    seq(|threads|, i requires 0 <= i < |threads| =>
      if i > 0 && threads[i].pc == Asleep then threads[i].(pc := Woken) else threads[i])
  }

  predicate Enabled(q: State, a: Action)
  {
    match a
    case AddChecks(checks, w) =>
      // a single check wakes one sleeping worker, if there is any
      && |q.threads| > 0 && q.threads[0].pc == Outside
      && w < |q.threads|
      && (|checks| == 1 ==>
        (w > 0 && q.threads[w].pc == Asleep) || (w == 0 && forall i | 0 < i < |q.threads| :: q.threads[i].pc != Asleep))
    case CallWait => |q.threads| > 0 && q.threads[0].pc == Outside
    case Lock(t) => t < |q.threads| && q.threads[t].pc == AtTop && q.nTotal + q.nIdle + 1 > 0
    case Relock(t) => t < |q.threads| && q.threads[t].pc == Woken && q.nTotal + q.nIdle > 0
    case Evaluate(t) => t < |q.threads| && q.threads[t].pc == Working
    case SpuriousWake(t) => t < |q.threads| && q.threads[t].pc == Asleep
  }

  function Step(q: State, a: Action, nBatchSize: nat): State
    requires Enabled(q, a)
  {
    match a
    case AddChecks(checks, w) =>
      var q' := q.(queue := q.queue + checks, nTodo := q.nTodo + |checks|, added := q.added + checks);
      if |checks| == 1 then
        if w > 0 then q'.(threads := q.threads[w := q.threads[w].(pc := Woken)]) else q'
      else if |checks| > 1 then q'.(threads := WakeWorkers(q.threads))
      else q'
    case CallWait => q.(threads := q.threads[0 := Thread(AtTop, 0, true, [])])
    case Lock(t) => Locked(q, t, nBatchSize)
    case Relock(t) => Decide(q.(nIdle := q.nIdle - 1), t, nBatchSize)
    case Evaluate(t) =>
      var me := q.threads[t];
      q.(threads := q.threads[t := Thread(AtTop, me.nNow, me.fOk && AllOk(me.batch), [])], done := q.done + me.batch)
    case SpuriousWake(t) => q.(threads := q.threads[t := q.threads[t].(pc := Woken)])
  }

  function Locked(q: State, t: nat, nBatchSize: nat): State
    requires t < |q.threads| && q.threads[t].pc == AtTop && q.nTotal + q.nIdle + 1 > 0
  {
    Decide(CleanUp(q, t), t, nBatchSize)
  }

  // ---- The invariant ------------------------------------------------------

  /** The thread has taken checks that are not yet accounted for. */
  predicate Pending(th: Thread)
  {
    th.pc == Working || (th.pc == AtTop && th.nNow > 0)
  }

  function Inflight(th: Thread): nat
  {
    if Pending(th) then th.nNow else 0
  }

  function InLoop(th: Thread): nat
  {
    if th.pc == Asleep || th.pc == Woken || Pending(th) then 1 else 0
  }

  function Idle(th: Thread): nat
  {
    if th.pc == Asleep || th.pc == Woken then 1 else 0
  }

  ghost function Sum(f: Thread -> nat, ths: seq<Thread>): nat
  {
    if ths == [] then 0 else Sum(f, ths[..|ths| - 1]) + f(ths[|ths| - 1])
  }

  lemma {:induction false} SumUpdate(f: Thread -> nat, ths: seq<Thread>, i: nat, th: Thread)
    requires i < |ths|
    ensures Sum(f, ths[i := th]) == Sum(f, ths) - f(ths[i]) + f(th)
    ensures f(ths[i]) <= Sum(f, ths)
  {
    var n := |ths| - 1;
    if i < n {
      SumUpdate(f, ths[..n], i, th);
      assert ths[i := th][..n] == ths[..n][i := th];
    } else {
      assert ths[i := th][..n] == ths[..n];
    }
  }

  lemma {:induction false} SumSame(f: Thread -> nat, ths: seq<Thread>, ths': seq<Thread>)
    requires |ths'| == |ths| && forall i | 0 <= i < |ths| :: f(ths'[i]) == f(ths[i])
    ensures Sum(f, ths') == Sum(f, ths)
  {
    if ths != [] {
      SumSame(f, ths[..|ths| - 1], ths'[..|ths| - 1]);
    }
  }

  lemma {:induction false} SumPositive(f: Thread -> nat, ths: seq<Thread>) returns (i: nat)
    requires Sum(f, ths) > 0
    ensures i < |ths| && f(ths[i]) > 0
  {
    var n := |ths| - 1;
    if f(ths[n]) > 0 {
      i := n;
    } else {
      i := SumPositive(f, ths[..n]);
    }
  }

  ghost predicate ThreadOk(th: Thread)
  {
    && (th.pc == Working ==> th.nNow > 0 && |th.batch| == th.nNow)
    && (th.pc != Working ==> th.batch == [])
  }

  /** Nothing known to this thread has failed or is going to fail. */
  ghost predicate ThreadClean(th: Thread)
  {
    && (th.pc == Working ==> th.fOk && AllOk(th.batch))
    && (th.pc == AtTop && th.nNow > 0 ==> th.fOk)
  }

  ghost predicate Clean(q: State)
  {
    q.fAllOk && AllOk(q.queue) && forall i | 0 <= i < |q.threads| :: ThreadClean(q.threads[i])
  }

  ghost predicate CountsOk(q: State)
  {
    && q.nTodo == |q.queue| + Sum(Inflight, q.threads)
    && q.nTotal == Sum(InLoop, q.threads)
    && q.nIdle == Sum(Idle, q.threads)
  }

  ghost predicate Inv(q: State)
  {
    && |q.threads| > 0
    && CountsOk(q)
    && (forall i | 0 <= i < |q.threads| :: ThreadOk(q.threads[i]))
    && (forall i | 0 < i < |q.threads| :: q.threads[i].pc != Outside)
    && (q.threads[0].pc == Asleep ==> q.nTodo > 0 && q.queue == [])
    && (Clean(q) <==> AllOk(q.added))
    && (forall i | 0 <= i < |q.rounds| :: q.rounds[i].ok == AllOk(q.rounds[i].checks))
  }

  /** Before any thread has run: the workers are about to enter the loop. */
  function Start(workers: nat): State
  {
    State([], 0, 0, true, 0,
      [Thread(Outside, 0, true, [])] + seq(workers, i => Thread(AtTop, 0, true, [])), [], [], [])
  }

  lemma {:induction false} SumZero(f: Thread -> nat, ths: seq<Thread>)
    requires forall i | 0 <= i < |ths| :: f(ths[i]) == 0
    ensures Sum(f, ths) == 0
  {
    if ths != [] {
      SumZero(f, ths[..|ths| - 1]);
    }
  }

  lemma StartInv(workers: nat)
    ensures Inv(Start(workers))
  {
    var q := Start(workers);
    SumZero(Inflight, q.threads);
    SumZero(InLoop, q.threads);
    SumZero(Idle, q.threads);
  }

  /** All three counts after one thread changed. */
  lemma CountsAfter(ths: seq<Thread>, t: nat, th: Thread)
    requires t < |ths|
    ensures Sum(Inflight, ths[t := th]) == Sum(Inflight, ths) - Inflight(ths[t]) + Inflight(th)
    ensures Sum(InLoop, ths[t := th]) == Sum(InLoop, ths) - InLoop(ths[t]) + InLoop(th)
    ensures Sum(Idle, ths[t := th]) == Sum(Idle, ths) - Idle(ths[t]) + Idle(th)
    ensures Inflight(ths[t]) <= Sum(Inflight, ths) && InLoop(ths[t]) <= Sum(InLoop, ths)
      && Idle(ths[t]) <= Sum(Idle, ths)
  {
    SumUpdate(Inflight, ths, t, th);
    SumUpdate(InLoop, ths, t, th);
    SumUpdate(Idle, ths, t, th);
  }

  // ---- Every step keeps the invariant -------------------------------------

  /** Changes to threads that no count and no verdict sees. */
  ghost predicate SameCounts(ths: seq<Thread>, ths': seq<Thread>)
  {
    && |ths'| == |ths|
    && forall i | 0 <= i < |ths| ::
        && Inflight(ths'[i]) == Inflight(ths[i]) && InLoop(ths'[i]) == InLoop(ths[i]) && Idle(ths'[i]) == Idle(ths[i])
        && ThreadClean(ths'[i]) == ThreadClean(ths[i]) && (ThreadOk(ths[i]) ==> ThreadOk(ths'[i]))
        && (ths'[i].pc == Outside <==> ths[i].pc == Outside)
  }

  lemma SameSums(ths: seq<Thread>, ths': seq<Thread>)
    requires SameCounts(ths, ths')
    ensures Sum(Inflight, ths') == Sum(Inflight, ths) && Sum(InLoop, ths') == Sum(InLoop, ths)
      && Sum(Idle, ths') == Sum(Idle, ths)
  {
    SumSame(Inflight, ths, ths');
    SumSame(InLoop, ths, ths');
    SumSame(Idle, ths, ths');
  }

  lemma {:induction false} PopBackOk(queue: seq<Check>, n: nat)
    requires n <= |queue|
    ensures |PopBack(queue, n)| == n
    ensures AllOk(queue) <==> AllOk(queue[..|queue| - n]) && AllOk(PopBack(queue, n))
  {
    if n > 0 {
      var init, last := queue[..|queue| - 1], queue[|queue| - 1];
      PopBackOk(init, n - 1);
      assert init[..|init| - (n - 1)] == queue[..|queue| - n];
      assert queue == init + [last];
      AllOkSplit(init, [last]);
      AllOkSplit([last], PopBack(init, n - 1));
      assert AllOk([last]) <==> last.ok;
    }
  }

  lemma AllOkSplit(a: seq<Check>, b: seq<Check>)
    ensures AllOk(a + b) <==> AllOk(a) && AllOk(b)
  {
    if AllOk(a + b) {
      forall i | 0 <= i < |a| ensures a[i].ok { assert (a + b)[i].ok; }
      forall i | 0 <= i < |b| ensures b[i].ok { assert (a + b)[|a| + i].ok; }
    }
  }

  lemma AddSame(q: State, checks: seq<Check>, w: nat, nBatchSize: nat)
    requires Enabled(q, AddChecks(checks, w))
    ensures var q' := Step(q, AddChecks(checks, w), nBatchSize);
            SameCounts(q.threads, q'.threads) && q'.threads[0] == q.threads[0]
  {
  }

  /** The clean verdict of the threads is unaffected by such changes. */
  lemma SameClean(q: State, q': State)
    requires SameCounts(q.threads, q'.threads) && q'.fAllOk == q.fAllOk
    ensures Clean(q') <==> q.fAllOk && AllOk(q'.queue) && forall i | 0 <= i < |q.threads| :: ThreadClean(q.threads[i])
  {
    hide ThreadClean;
  }

  lemma AddKeepsInv(q: State, checks: seq<Check>, w: nat, nBatchSize: nat)
    requires Inv(q) && Enabled(q, AddChecks(checks, w))
    ensures Inv(Step(q, AddChecks(checks, w), nBatchSize))
  {
    hide Sum, ThreadClean, WakeWorkers, AllOk;
    var q' := Step(q, AddChecks(checks, w), nBatchSize);
    AddSame(q, checks, w, nBatchSize);
    SameSums(q.threads, q'.threads);
    SameClean(q, q');
    AllOkSplit(q.queue, checks);
    AllOkSplit(q.added, checks);
  }

  lemma OneThreadKeepsInv(q: State, t: nat, th: Thread)
    requires Inv(q) && t < |q.threads| && ThreadOk(th) && (th.pc == Outside <==> false)
    requires Inflight(th) == Inflight(q.threads[t]) && InLoop(th) == InLoop(q.threads[t])
      && Idle(th) == Idle(q.threads[t])
    requires ThreadClean(th) == ThreadClean(q.threads[t]) && th.pc != Asleep
    ensures Inv(q.(threads := q.threads[t := th]))
  {
    hide Sum, ThreadClean, AllOk, Inflight, InLoop, Idle;
    CountsAfter(q.threads, t, th);
    CleanFrame(q, q.(threads := q.threads[t := th]), t);
  }

  lemma CleanFrame(q: State, q': State, t: nat)
    requires t < |q.threads| && |q'.threads| == |q.threads| && q'.fAllOk == q.fAllOk && q'.queue == q.queue
    requires q'.threads == q.threads[t := q'.threads[t]] && ThreadClean(q'.threads[t]) == ThreadClean(q.threads[t])
    ensures Clean(q') == Clean(q)
  {
    if forall i | 0 <= i < |q.threads| :: ThreadClean(q.threads[i]) {
      forall i | 0 <= i < |q'.threads| ensures ThreadClean(q'.threads[i]) {
        assert ThreadClean(q.threads[i]);
      }
    }
    if forall i | 0 <= i < |q'.threads| :: ThreadClean(q'.threads[i]) {
      forall i | 0 <= i < |q.threads| ensures ThreadClean(q.threads[i]) {
        assert ThreadClean(q'.threads[i]);
      }
    }
  }

  /** The state while thread t holds the lock and tests the queue: t itself has nothing pending and
      is counted in the loop but not as idle. */
  ghost predicate Holding(q: State, t: nat)
  {
    && t < |q.threads|
    && q.nTodo == |q.queue| + Sum(Inflight, q.threads) - Inflight(q.threads[t])
    && q.nTotal == Sum(InLoop, q.threads) - InLoop(q.threads[t]) + 1
    && q.nIdle == Sum(Idle, q.threads) - Idle(q.threads[t])
    && (forall i | 0 <= i < |q.threads| :: ThreadOk(q.threads[i]))
    && (forall i | 0 < i < |q.threads| :: q.threads[i].pc != Outside)
    && (t != 0 && q.threads[0].pc == Asleep ==> q.nTodo > 0 && q.queue == [])
    && (CleanBut(q, t) <==> AllOk(q.added))
    && (forall i | 0 <= i < |q.rounds| :: q.rounds[i].ok == AllOk(q.rounds[i].checks))
    && q.threads[t].pc != Working && q.threads[t].pc != Outside
  }

  ghost predicate CleanBut(q: State, t: nat)
  {
    q.fAllOk && AllOk(q.queue) && forall i | 0 <= i < |q.threads| && i != t :: ThreadClean(q.threads[i])
  }

  lemma CleanButIs(q: State, t: nat)
    requires t < |q.threads|
    ensures Clean(q) <==> CleanBut(q, t) && ThreadClean(q.threads[t])
  {
  }

  lemma WakeMasterSame(ths: seq<Thread>)
    requires |ths| > 0
    ensures SameCounts(ths, WakeMaster(ths)) && WakeMaster(ths)[0].pc != Asleep && WakeMaster(ths)[1..] == ths[1..]
  {
  }

  /** The clean-up hands the thread's verdict and count over to the shared state. */
  lemma CleanUpHolds(q: State, t: nat)
    requires Inv(q) && t < |q.threads| && q.threads[t].pc == AtTop
    ensures Holding(CleanUp(q, t), t) && CleanUp(q, t).nTotal + CleanUp(q, t).nIdle + 1 > 0
  {
    hide Sum, AllOk;
    var me := q.threads[t];
    CountsAfter(q.threads, t, me);
    var q1 := if me.nNow != 0 then q.(fAllOk := q.fAllOk
      && me.fOk, nTodo := q.nTodo - me.nNow) else q.(nTotal := q.nTotal + 1);
    CleanButIs(q, t);
    assert CleanBut(q1, t) <==> AllOk(q.added);
    if me.nNow != 0 && q1.nTodo == 0 && t != 0 {
      WakeMasterSame(q1.threads);
      SameSums(q1.threads, WakeMaster(q1.threads));
      CleanButFrame(q1, q1.(threads := WakeMaster(q1.threads)), t);
      assert WakeMaster(q1.threads)[t] == q1.threads[t];
    }
  }

  lemma CleanButFrame(q: State, q': State, t: nat)
    requires SameCounts(q.threads, q'.threads) && q'.fAllOk == q.fAllOk && q'.queue == q.queue
    ensures CleanBut(q', t) == CleanBut(q, t)
  {
    hide ThreadClean;
  }

  lemma CleanButOthers(q: State, q': State, t: nat)
    requires |q'.threads| == |q.threads| && q'.fAllOk == q.fAllOk && q'.queue == q.queue
    requires forall i | 0 <= i < |q.threads| && i != t :: q'.threads[i] == q.threads[i]
    ensures CleanBut(q', t) == CleanBut(q, t)
  {
    hide ThreadClean;
    if CleanBut(q, t) {
      forall i | 0 <= i < |q'.threads| && i != t ensures ThreadClean(q'.threads[i]) {
        assert ThreadClean(q.threads[i]);
      }
    }
    if CleanBut(q', t) {
      forall i | 0 <= i < |q.threads| && i != t ensures ThreadClean(q.threads[i]) { assert ThreadClean(q'.threads[i]); }
    }
  }

  lemma RelockHolds(q: State, t: nat)
    requires Inv(q) && t < |q.threads| && q.threads[t].pc == Woken
    ensures Holding(q.(nIdle := q.nIdle - 1), t)
  {
    hide Sum, AllOk;
    CleanButIs(q, t);
  }

  /** When nothing is left to do, no other thread has anything pending. */
  lemma NothingPending(q: State, t: nat, i: nat)
    requires Holding(q, t) && q.nTodo == 0 && i < |q.threads| && i != t
    ensures !Pending(q.threads[i])
  {
    hide Sum;
    var rest := q.threads[t := Thread(Outside, 0, true, [])];
    CountsAfter(q.threads, t, Thread(Outside, 0, true, []));
    CountsAfter(rest, i, rest[i]);
    assert rest[i] == q.threads[i] && ThreadOk(q.threads[i]);
  }

  lemma ReturnKeepsInv(q: State, nBatchSize: nat)
    requires Holding(q, 0) && q.nTotal + q.nIdle + 1 > 0 && q.queue == [] && q.nTodo == 0
    ensures Inv(Decide(q, 0, nBatchSize))
  {
    hide Sum;
    var q' := Decide(q, 0, nBatchSize);
    CountsAfter(q.threads, 0, q'.threads[0]);
    forall i | 0 < i < |q.threads| ensures ThreadClean(q.threads[i]) {
      NothingPending(q, 0, i);
    }
  }

  lemma SleepKeepsInv(q: State, t: nat, nBatchSize: nat)
    requires Holding(q, t) && q.nTotal + q.nIdle + 1 > 0 && q.queue == [] && (t != 0 || q.nTodo != 0)
    ensures Inv(Decide(q, t, nBatchSize))
  {
    hide Sum, AllOk;
    var q' := Decide(q, t, nBatchSize);
    CountsAfter(q.threads, t, q'.threads[t]);
    CleanButIs(q', t);
    CleanButOthers(q, q', t);
    assert ThreadOk(q.threads[t]);
  }

  lemma TakeKeepsInv(q: State, t: nat, nBatchSize: nat)
    requires Holding(q, t) && q.nTotal + q.nIdle + 1 > 0 && q.queue != []
    ensures Inv(Decide(q, t, nBatchSize))
  {
    hide Sum, AllOk, PopBack;
    var q' := Decide(q, t, nBatchSize);
    var n := BatchSize(q, nBatchSize);
    PopBackOk(q.queue, n);
    CountsAfter(q.threads, t, q'.threads[t]);
    CleanButIs(q', t);
    TakeClean(q, q', t, n);
  }

  lemma TakeClean(q: State, q': State, t: nat, n: nat)
    requires t < |q.threads| && n <= |q.queue| && q'.fAllOk == q.fAllOk && q'.queue == q.queue[..|q.queue| - n]
    requires |q'.threads| == |q.threads| && q'.threads[t] == Thread(Working, n, q.fAllOk, PopBack(q.queue, n))
    requires forall i | 0 <= i < |q.threads| && i != t :: q'.threads[i] == q.threads[i]
    ensures CleanBut(q', t) && ThreadClean(q'.threads[t]) <==> CleanBut(q, t)
  {
    hide PopBack;
    PopBackOk(q.queue, n);
    CleanButOthers(q, q'.(queue := q.queue), t);
  }

  lemma DecideKeepsInv(q: State, t: nat, nBatchSize: nat)
    requires Holding(q, t) && q.nTotal + q.nIdle + 1 > 0
    ensures Inv(Decide(q, t, nBatchSize))
  {
    hide Holding, Inv;
    if q.queue != [] {
      TakeKeepsInv(q, t, nBatchSize);
    } else if t == 0 && q.nTodo == 0 {
      ReturnKeepsInv(q, nBatchSize);
    } else {
      SleepKeepsInv(q, t, nBatchSize);
    }
  }

  lemma DoneKeepsInv(q: State, checks: seq<Check>)
    requires Inv(q)
    ensures Inv(q.(done := q.done + checks))
  {
    hide Sum;
  }

  /** Every step of every thread keeps the invariant. */
  lemma StepKeepsInv(q: State, a: Action, nBatchSize: nat)
    requires Inv(q) && Enabled(q, a)
    ensures Inv(Step(q, a, nBatchSize))
  {
    hide Sum, Decide, CleanUp, Holding;
    match a
    case AddChecks(checks, w) => AddKeepsInv(q, checks, w, nBatchSize);
    case CallWait => OneThreadKeepsInv(q, 0, Thread(AtTop, 0, true, []));
    case Evaluate(t) =>
      var me := q.threads[t];
      assert ThreadOk(me);
      OneThreadKeepsInv(q, t, Thread(AtTop, me.nNow, me.fOk && AllOk(me.batch), []));
      DoneKeepsInv(q.(threads := q.threads[t := Thread(AtTop, me.nNow, me.fOk && AllOk(me.batch), [])]), me.batch);
    case SpuriousWake(t) =>
      assert ThreadOk(q.threads[t]);
      OneThreadKeepsInv(q, t, q.threads[t].(pc := Woken));
    case Lock(t) =>
      CleanUpHolds(q, t);
      DecideKeepsInv(CleanUp(q, t), t, nBatchSize);
    case Relock(t) =>
      RelockHolds(q, t);
      DecideKeepsInv(q.(nIdle := q.nIdle - 1), t, nBatchSize);
  }

  // ---- Whole runs ---------------------------------------------------------

  /** A run: from the start, any interleaving of enabled steps. */
  ghost predicate IsRun(run: seq<State>, actions: seq<Action>, workers: nat, nBatchSize: nat)
  {
    && |run| == |actions| + 1 && run[0] == Start(workers)
    && forall i | 0 <= i < |actions| ::
      Enabled(run[i], actions[i]) && run[i + 1] == Step(run[i], actions[i], nBatchSize)
  }

  lemma {:induction false} RunInv(run: seq<State>, actions: seq<Action>, workers: nat, nBatchSize: nat, k: nat)
    requires IsRun(run, actions, workers, nBatchSize) && k < |run|
    ensures Inv(run[k])
  {
    hide Inv, Step, Enabled;
    if k == 0 {
      StartInv(workers);
    } else {
      RunInv(run, actions, workers, nBatchSize, k - 1);
      StepKeepsInv(run[k - 1], actions[k - 1], nBatchSize);
    }
  }

  /** For any number of workers and any interleaving: the number of open checks is that of the queued
      and the taken ones; every wait that returned told exactly whether the checks of its own round
      succeeded; and the master never sleeps with nothing left to do. */
  lemma RunIsCorrect(run: seq<State>, actions: seq<Action>, workers: nat, nBatchSize: nat, k: nat)
    requires IsRun(run, actions, workers, nBatchSize) && k < |run|
    ensures run[k].nTodo == |run[k].queue| + Sum(Inflight, run[k].threads)
    ensures forall i | 0 <= i < |run[k].rounds| :: run[k].rounds[i].ok <==> AllOk(run[k].rounds[i].checks)
    ensures |run[k].threads| > 0 && (run[k].threads[0].pc == Asleep ==> run[k].nTodo > 0)
  {
    hide IsRun;
    RunInv(run, actions, workers, nBatchSize, k);
  }

  // ---- Workers are woken for the work -------------------------------------

  function Awake(th: Thread): nat
  {
    if th.pc == Asleep then 0 else 1
  }

  /** Either every worker is awake, or as many of them as there are queued checks. */
  ghost predicate Staffed(q: State)
  {
    && |q.threads| > 0
    && ((forall i | 0 < i < |q.threads| :: q.threads[i].pc != Asleep) || Sum(Awake, q.threads[1..]) >= |q.queue|)
  }

  /** Adding several checks wakes every worker, adding one wakes one if any sleeps, and no check is taken away
      from the threads that sleep. */
  lemma AddWakes(q: State, checks: seq<Check>, w: nat, nBatchSize: nat)
    requires Enabled(q, AddChecks(checks, w))
    ensures var q' := Step(q, AddChecks(checks, w), nBatchSize);
      && |q'.threads| == |q.threads|
      && (|checks| >= 2 ==> forall i | 0 < i < |q'.threads| :: q'.threads[i].pc != Asleep)
      && (|checks| == 1 && (exists i :: 0 < i < |q.threads| && q.threads[i].pc == Asleep) ==>
            Sum(Awake, q'.threads[1..]) == Sum(Awake, q.threads[1..]) + 1)
      && (forall i | 0 <= i < |q.threads| && q.threads[i].pc != Asleep :: q'.threads[i] == q.threads[i])
  {
    hide Sum;
    if |checks| == 1 && w > 0 {
      OneWorker(q.threads, w, q.threads[w].(pc := Woken));
    }
  }

  /** The workers' count after one thread changed. */
  lemma OneWorker(ths: seq<Thread>, t: nat, th: Thread)
    requires t < |ths|
    ensures Sum(Awake, ths[t := th][1..]) ==
            Sum(Awake, ths[1..]) + (if t > 0 then Awake(th) - Awake(ths[t]) else 0)
  {
    hide Sum;
    if t > 0 {
      SumUpdate(Awake, ths[1..], t - 1, th);
      assert ths[t := th][1..] == ths[1..][t - 1 := th];
    } else {
      assert ths[t := th][1..] == ths[1..];
    }
  }

  lemma CleanUpStaffed(q: State, t: nat)
    requires t < |q.threads| && Staffed(q)
    ensures Staffed(CleanUp(q, t)) && |CleanUp(q, t).threads| == |q.threads|
    ensures t > 0 ==> CleanUp(q, t).threads[t].pc == q.threads[t].pc
  {
    hide Sum;
    OneWorker(q.threads, 0, q.threads[0].(pc := Woken));
  }

  lemma DecideStaffed(q: State, t: nat, nBatchSize: nat)
    requires t < |q.threads| && q.nTotal + q.nIdle + 1 > 0 && Staffed(q) && (t > 0 ==> q.threads[t].pc != Asleep)
    ensures Staffed(Decide(q, t, nBatchSize))
  {
    hide Sum, PopBack, BatchSize;
    OneWorker(q.threads, t, Decide(q, t, nBatchSize).threads[t]);
  }

  lemma StepStaffed(q: State, a: Action, nBatchSize: nat)
    requires Enabled(q, a) && Staffed(q) && q.nTotal >= 0 && q.nIdle >= 0
    ensures Staffed(Step(q, a, nBatchSize))
  {
    hide Sum, Decide, CleanUp, AllOk;
    match a
    case AddChecks(checks, w) => AddStaffed(q, checks, w, nBatchSize);
    case CallWait => OneWorker(q.threads, 0, Thread(AtTop, 0, true, []));
    case Evaluate(t) =>
      var me := q.threads[t];
      OneWorker(q.threads, t, Thread(AtTop, me.nNow, me.fOk && AllOk(me.batch), []));
    case SpuriousWake(t) => OneWorker(q.threads, t, q.threads[t].(pc := Woken));
    case Lock(t) =>
      CleanUpStaffed(q, t);
      CleanUpCounts(q, t);
      DecideStaffed(CleanUp(q, t), t, nBatchSize);
    case Relock(t) => DecideStaffed(q.(nIdle := q.nIdle - 1), t, nBatchSize);
  }

  lemma CleanUpCounts(q: State, t: nat)
    requires t < |q.threads|
    ensures CleanUp(q, t).nTotal >= q.nTotal && CleanUp(q, t).nIdle == q.nIdle
  {
  }

  lemma AddStaffed(q: State, checks: seq<Check>, w: nat, nBatchSize: nat)
    requires Enabled(q, AddChecks(checks, w)) && Staffed(q)
    ensures Staffed(Step(q, AddChecks(checks, w), nBatchSize))
  {
    hide Sum, WakeWorkers;
    AddWakes(q, checks, w, nBatchSize);
  }

  /** In every state of every run: if some worker sleeps, at least as many workers are awake as there are checks
      in the queue. */
  lemma {:induction false} WorkersFollow(run: seq<State>, actions: seq<Action>, workers: nat, nBatchSize: nat, k: nat)
    requires IsRun(run, actions, workers, nBatchSize) && k < |run|
    ensures Staffed(run[k])
  {
    hide Step, Enabled, Sum;
    if k > 0 {
      WorkersFollow(run, actions, workers, nBatchSize, k - 1);
      RunInv(run, actions, workers, nBatchSize, k - 1);
      StepStaffed(run[k - 1], actions[k - 1], nBatchSize);
    }
  }

  /** Each check is in exactly one round: the rounds and what is open partition what was added. */
  ghost function History(q: State): seq<Check>
  {
    Rounds(q.rounds) + q.added
  }

  ghost function Rounds(rounds: seq<Round>): seq<Check>
  {
    if rounds == [] then [] else Rounds(rounds[..|rounds| - 1]) + rounds[|rounds| - 1].checks
  }

  /** The history grows by what is added and by nothing else. */
  lemma HistoryGrows(q: State, a: Action, nBatchSize: nat)
    requires Enabled(q, a)
    ensures History(Step(q, a, nBatchSize)) == History(q) + (if a.AddChecks? then a.checks else [])
  {
    hide Decide;
    match a
    case AddChecks(checks, w) =>
      assert Rounds(q.rounds) + (q.added + checks) == History(q) + checks;
    case Lock(t) => DecideHistory(CleanUp(q, t), t, nBatchSize);
    case Relock(t) => DecideHistory(q.(nIdle := q.nIdle - 1), t, nBatchSize);
    case _ =>
  }

  lemma DecideHistory(q: State, t: nat, nBatchSize: nat)
    requires t < |q.threads| && q.nTotal + q.nIdle + 1 > 0
    ensures History(Decide(q, t, nBatchSize)) == History(q)
  {
    var rounds' := q.rounds + [Round(q.added, q.fAllOk, q.done)];
    assert rounds'[..|q.rounds|] == q.rounds;
    assert Rounds(rounds') == Rounds(q.rounds) + q.added;
  }

  // ---- No check is lost ---------------------------------------------------

  /** How often a check occurs in a list, and in the batches of all threads. */
  ghost function Count(checks: seq<Check>, c: Check): nat
  {
    multiset(checks)[c]
  }

  ghost function InBatches(ths: seq<Thread>, c: Check): nat
  {
    if ths == [] then 0 else InBatches(ths[..|ths| - 1], c) + Count(ths[|ths| - 1].batch, c)
  }

  /** A check is queued, in the batch of a thread, or dealt with, together as often as it was added. */
  ghost predicate AccountedFor(q: State, c: Check)
  {
    Count(q.added, c) == Count(q.queue, c) + InBatches(q.threads, c) + Count(q.done, c)
  }

  /** So is every check of the open round; and a finished wait dealt with exactly the checks of its round. */
  ghost predicate Accounted(q: State)
  {
    && (forall c :: AccountedFor(q, c))
    && forall i | 0 <= i < |q.rounds| :: multiset(q.rounds[i].handled) == multiset(q.rounds[i].checks)
  }

  lemma CountConcat(a: seq<Check>, b: seq<Check>, c: Check)
    ensures Count(a + b, c) == Count(a, c) + Count(b, c)
    ensures Count([], c) == 0
  {
  }

  lemma {:induction false} BatchesUpdate(ths: seq<Thread>, i: nat, th: Thread, c: Check)
    requires i < |ths|
    ensures InBatches(ths[i := th], c) == InBatches(ths, c) - Count(ths[i].batch, c) + Count(th.batch, c)
  {
    hide Count;
    var n := |ths| - 1;
    if i < n {
      BatchesUpdate(ths[..n], i, th, c);
      assert ths[i := th][..n] == ths[..n][i := th];
    } else {
      assert ths[i := th][..n] == ths[..n];
    }
  }

  lemma {:induction false} BatchesSame(ths: seq<Thread>, ths': seq<Thread>, c: Check)
    requires |ths'| == |ths| && forall i | 0 <= i < |ths| :: ths'[i].batch == ths[i].batch
    ensures InBatches(ths', c) == InBatches(ths, c)
  {
    hide Count;
    if ths != [] { BatchesSame(ths[..|ths| - 1], ths'[..|ths| - 1], c); }
  }

  lemma {:induction false} NoBatches(ths: seq<Thread>, c: Check)
    requires forall i | 0 <= i < |ths| :: ths[i].batch == []
    ensures InBatches(ths, c) == 0
  {
    hide Count;
    CountConcat([], [], c);
    if ths != [] { NoBatches(ths[..|ths| - 1], c); }
  }

  lemma {:induction false} PopBackAll(queue: seq<Check>, n: nat, c: Check)
    requires n <= |queue|
    ensures Count(queue[..|queue| - n], c) + Count(PopBack(queue, n), c) == Count(queue, c)
  {
    hide Count;
    CountConcat([], [], c);
    if n == 0 {
      assert queue[..|queue|] == queue;
    } else {
      var init, last := queue[..|queue| - 1], queue[|queue| - 1];
      PopBackAll(init, n - 1, c);
      assert init[..|init| - (n - 1)] == queue[..|queue| - n];
      assert queue == init + [last];
      CountConcat(init, [last], c);
      CountConcat([last], PopBack(init, n - 1), c);
    }
  }

  lemma TakeAccounts(q: State, t: nat, nBatchSize: nat, c: Check)
    requires Holding(q, t) && q.nTotal + q.nIdle + 1 > 0 && AccountedFor(q, c)
    requires q.queue != [] || t != 0 || q.nTodo != 0
    ensures AccountedFor(Decide(q, t, nBatchSize), c)
  {
    hide Sum, AllOk, PopBack, InBatches, Clean, CleanBut, Count;
    CountConcat([], [], c);
    assert ThreadOk(q.threads[t]);
    BatchesUpdate(q.threads, t, Decide(q, t, nBatchSize).threads[t], c);
    if q.queue != [] { PopBackAll(q.queue, BatchSize(q, nBatchSize), c); }
  }

  /** When a wait returns, the checks of its round are the ones dealt with. */
  lemma ReturnAccounts(q: State, nBatchSize: nat)
    requires Holding(q, 0) && q.nTotal + q.nIdle + 1 > 0 && q.queue == [] && q.nTodo == 0
    requires forall c :: AccountedFor(q, c)
    ensures multiset(q.done) == multiset(q.added) && forall c :: AccountedFor(Decide(q, 0, nBatchSize), c)
  {
    hide Sum, AllOk, InBatches, Clean, CleanBut;
    var q' := Decide(q, 0, nBatchSize);
    forall i | 0 <= i < |q.threads| ensures q.threads[i].batch == [] && q'.threads[i].batch == [] {
      assert ThreadOk(q.threads[i]);
      if i != 0 { NothingPending(q, 0, i); }
    }
    forall c ensures Count(q.done, c) == Count(q.added, c) && AccountedFor(q', c) {
      assert AccountedFor(q, c);
      NoBatches(q.threads, c);
      NoBatches(q'.threads, c);
    }
    assert forall c :: multiset(q.done)[c] == Count(q.done, c) == Count(q.added, c) == multiset(q.added)[c];
  }

  lemma DecideAccounts(q: State, t: nat, nBatchSize: nat)
    requires t < |q.threads| && Holding(q, t) && q.nTotal + q.nIdle + 1 > 0 && Accounted(q)
    ensures Accounted(Decide(q, t, nBatchSize))
  {
    hide Holding, AccountedFor, PopBack;
    if q.queue == [] && t == 0 && q.nTodo == 0 {
      ReturnAccounts(q, nBatchSize);
    } else {
      forall c ensures AccountedFor(Decide(q, t, nBatchSize), c) { TakeAccounts(q, t, nBatchSize, c); }
    }
  }

  lemma CleanUpAccounts(q: State, t: nat)
    requires t < |q.threads| && Accounted(q)
    ensures Accounted(CleanUp(q, t))
  {
    hide InBatches, Count;
    forall c ensures AccountedFor(CleanUp(q, t), c) {
      assert AccountedFor(q, c);
      BatchesSame(q.threads, CleanUp(q, t).threads, c);
    }
  }

  lemma RelockAccounts(q: State)
    requires Accounted(q)
    ensures Accounted(q.(nIdle := q.nIdle - 1))
  {
    var q' := q.(nIdle := q.nIdle - 1);
    forall c ensures AccountedFor(q', c) { assert AccountedFor(q, c); }
  }

  lemma SimpleStepAccounts(q: State, a: Action, nBatchSize: nat, c: Check)
    requires Inv(q) && Enabled(q, a) && AccountedFor(q, c) && !a.Lock? && !a.Relock?
    ensures AccountedFor(Step(q, a, nBatchSize), c)
  {
    hide Sum, InBatches, Count, Clean, AllOk;
    var q' := Step(q, a, nBatchSize);
    CountConcat([], [], c);
    match a
    case AddChecks(checks, w) =>
      CountConcat(q.added, checks, c);
      CountConcat(q.queue, checks, c);
      BatchesSame(q.threads, q'.threads, c);
    case CallWait =>
      assert ThreadOk(q.threads[0]);
      BatchesUpdate(q.threads, 0, q'.threads[0], c);
    case Evaluate(t) =>
      CountConcat(q.done, q.threads[t].batch, c);
      BatchesUpdate(q.threads, t, q'.threads[t], c);
    case SpuriousWake(t) => BatchesSame(q.threads, q'.threads, c);
  }

  /** Every step keeps the account. */
  lemma StepAccounts(q: State, a: Action, nBatchSize: nat)
    requires Inv(q) && Enabled(q, a) && Accounted(q)
    ensures Accounted(Step(q, a, nBatchSize))
  {
    hide Inv, Decide, CleanUp, Holding, AccountedFor;
    match a
    case Lock(t) =>
      CleanUpHolds(q, t);
      CleanUpAccounts(q, t);
      CleanUpRounds(q, t);
      DecideAccounts(CleanUp(q, t), t, nBatchSize);
    case Relock(t) =>
      RelockHolds(q, t);
      RelockAccounts(q);
      DecideAccounts(q.(nIdle := q.nIdle - 1), t, nBatchSize);
    case _ =>
      forall c ensures AccountedFor(Step(q, a, nBatchSize), c) { SimpleStepAccounts(q, a, nBatchSize, c); }
  }

  /** All checks that the actions add, in order. */
  ghost function AddedBy(actions: seq<Action>): seq<Check>
  {
    if actions == [] then [] else
      var n := |actions| - 1;
      AddedBy(actions[..n]) + if actions[n].AddChecks? then actions[n].checks else []
  }

  /** No check is lost, duplicated or moved to another round: in every state of every run the checks of the
      rounds and the open ones are those that were added, in order; each finished wait dealt with exactly
      the checks of its round; and each open check is queued, in one batch, or dealt with. */
  lemma {:induction false} NothingLost(run: seq<State>, actions: seq<Action>, workers: nat, nBatchSize: nat, k: nat)
    requires IsRun(run, actions, workers, nBatchSize) && k < |run|
    ensures History(run[k]) == AddedBy(actions[..k]) && Accounted(run[k])
  {
    hide Inv, Step, Enabled, History, Accounted;
    if k == 0 {
      StartAccounts(workers);
      assert actions[..0] == [];
    } else {
      NothingLost(run, actions, workers, nBatchSize, k - 1);
      RunInv(run, actions, workers, nBatchSize, k - 1);
      StepAccounts(run[k - 1], actions[k - 1], nBatchSize);
      HistoryGrows(run[k - 1], actions[k - 1], nBatchSize);
      assert actions[..k][..k - 1] == actions[..k - 1];
    }
  }

  lemma StartAccounts(workers: nat)
    ensures Accounted(Start(workers)) && History(Start(workers)) == []
  {
    forall c ensures AccountedFor(Start(workers), c) { NoBatches(Start(workers).threads, c); }
  }

  // ---- Progress -----------------------------------------------------------

  /** Where a thread stands alone decides which of its steps it may take: the share of a batch never
      divides by zero. */
  lemma MayStep(q: State, t: nat)
    requires Inv(q) && t < |q.threads|
    ensures Enabled(q, Lock(t)) <==> q.threads[t].pc == AtTop
    ensures Enabled(q, Relock(t)) <==> q.threads[t].pc == Woken
    ensures Enabled(q, Evaluate(t)) <==> q.threads[t].pc == Working
    ensures Enabled(q, SpuriousWake(t)) <==> q.threads[t].pc == Asleep
    ensures Enabled(q, CallWait) <==> q.threads[0].pc == Outside
  {
    CountsAfter(q.threads, t, q.threads[t]);
  }

  /** While the master waits, some thread can take a step of its own. */
  lemma NoDeadlock(q: State) returns (a: Action)
    requires Inv(q) && q.threads[0].pc != Outside
    ensures Enabled(q, a) && (a.Lock? || a.Relock? || a.Evaluate?)
  {
    var t: nat := 0;
    if q.threads[0].pc == Asleep {
      t := SumPositive(Inflight, q.threads);
    }
    CountsAfter(q.threads, t, q.threads[t]);
    a := if q.threads[t].pc == Working then Evaluate(t) else if q.threads[t].pc == AtTop then Lock(t) else Relock(t);
  }

  /** How far a thread is from going to sleep. */
  function Rank(th: Thread): nat
  {
    match th.pc
    case Outside => 0
    case Asleep => 0
    case Woken => 1
    case AtTop => 1
    case Working => 2
  }

  /** Smaller in the lexicographic order of open checks, queued checks and thread ranks. */
  ghost predicate Closer(q: State, q': State)
  {
    || q'.nTodo < q.nTodo
    || (q'.nTodo == q.nTodo && |q'.queue| < |q.queue|)
    || (q'.nTodo == q.nTodo && |q'.queue| == |q.queue| && Sum(Rank, q'.threads) < Sum(Rank, q.threads))
  }

  /** Every step a thread takes of its own accord brings the wait closer to its end or ends it; the
      measure is well-founded because open checks never become negative. */
  lemma StepCloser(q: State, a: Action, nBatchSize: nat)
    requires Inv(q) && Enabled(q, a) && (a.Lock? || a.Relock? || a.Evaluate?)
    ensures var q' := Step(q, a, nBatchSize);
            0 <= q'.nTodo && (Closer(q, q') || (q'.threads[0].pc == Outside && |q'.rounds| == |q.rounds| + 1))
  {
    hide Inv;
    var q' := Step(q, a, nBatchSize);
    StepKeepsInv(q, a, nBatchSize);
    TodoNonNegative(q');
    TodoNonNegative(q);
    match a
    case Evaluate(t) => SumUpdate(Rank, q.threads, t, q'.threads[t]);
    case Relock(t) =>
      if q.queue == [] {
        SumUpdate(Rank, q.threads, t, q'.threads[t]);
      }
    case Lock(t) =>
      if q.threads[t].nNow == 0 && q.queue == [] {
        SumUpdate(Rank, q.threads, t, q'.threads[t]);
      }
  }

  lemma TodoNonNegative(q: State)
    requires Inv(q)
    ensures q.nTodo >= 0
  {
  }

  /** From every reachable state in which the master waits, letting threads run ends the wait. */
  lemma {:induction false} WaitEnds(q: State, nBatchSize: nat) returns (actions: seq<Action>, end: State)
    requires Inv(q) && q.threads[0].pc != Outside
    ensures Leads(q, actions, nBatchSize, end) && Inv(end) && end.threads[0].pc == Outside
    ensures |end.rounds| == |q.rounds| + 1 && end.rounds[|q.rounds|].checks == q.added
    ensures end.rounds[|q.rounds|].ok == AllOk(q.added)
    decreases q.nTodo, |q.queue|, Sum(Rank, q.threads)
  {
    hide Inv, Sum, Step;
    TodoNonNegative(q);
    var a := NoDeadlock(q);
    StepKeepsInv(q, a, nBatchSize);
    StepCloser(q, a, nBatchSize);
    OwnStepRounds(q, a, nBatchSize);
    var q' := Step(q, a, nBatchSize);
    if q'.threads[0].pc == Outside {
      actions, end := [a], q';
      assert Leads(q', [], nBatchSize, q');
    } else {
      var rest;
      rest, end := WaitEnds(q', nBatchSize);
      actions := [a] + rest;
      assert actions[1..] == rest;
    }
  }

  ghost predicate Leads(q: State, actions: seq<Action>, nBatchSize: nat, end: State)
    decreases |actions|
  {
    if actions == [] then q == end
    else Enabled(q, actions[0]) && Leads(Step(q, actions[0], nBatchSize), actions[1..], nBatchSize, end)
  }

  /** A thread's own step either ends the wait with the verdict on the round, or leaves the round open. */
  lemma OwnStepRounds(q: State, a: Action, nBatchSize: nat)
    requires Inv(q) && Enabled(q, a) && (a.Lock? || a.Relock? || a.Evaluate?) && q.threads[0].pc != Outside
    ensures var q' := Step(q, a, nBatchSize);
            && |q'.threads| > 0
            && if q'.threads[0].pc == Outside
               then |q'.rounds| == |q.rounds| + 1 && q'.rounds == q.rounds + [Round(q.added, AllOk(q.added), q.done)]
               else q'.rounds == q.rounds && q'.added == q.added
  {
    hide Inv, Decide, CleanUp, AllOk;
    StepKeepsInv(q, a, nBatchSize);
    RoundVerdicts(Step(q, a, nBatchSize));
    match a
    case Evaluate(t) =>
    case Relock(t) => DecideRounds(q.(nIdle := q.nIdle - 1), t, nBatchSize);
    case Lock(t) =>
      CleanUpHolds(q, t);
      CleanUpRounds(q, t);
      DecideRounds(CleanUp(q, t), t, nBatchSize);
  }

  lemma RoundVerdicts(q: State)
    requires Inv(q)
    ensures |q.threads| > 0 && forall i | 0 <= i < |q.rounds| :: q.rounds[i].ok == AllOk(q.rounds[i].checks)
  {
  }

  lemma CleanUpRounds(q: State, t: nat)
    requires t < |q.threads|
    ensures var q' := CleanUp(q, t);
      && q'.rounds == q.rounds && q'.added == q.added && q'.done == q.done && |q'.threads| == |q.threads|
      && (q'.threads[0].pc == Outside <==> q.threads[0].pc == Outside)
  {
  }

  lemma DecideRounds(q: State, t: nat, nBatchSize: nat)
    requires t < |q.threads| && q.nTotal + q.nIdle + 1 > 0 && q.threads[0].pc != Outside
    ensures var q' := Decide(q, t, nBatchSize);
      && |q'.threads| == |q.threads|
      && if q'.threads[0].pc == Outside then q'.rounds == q.rounds + [Round(q.added, q.fAllOk, q.done)]
         else q'.rounds == q.rounds && q'.added == q.added
  {
    hide PopBack;
  }

  // ---- Every schedule -----------------------------------------------------

  predicate Own(a: Action)
  {
    a.Lock? || a.Relock? || a.Evaluate?
  }

  function SpuriousIn(actions: seq<Action>): nat
  {
    if actions == [] then 0
    else SpuriousIn(actions[..|actions| - 1]) + (if actions[|actions| - 1].SpuriousWake? then 1 else 0)
  }

  /** A count that every step of a thread lowers and a spurious wake-up raises by one. */
  ghost function Potential(q: State): int
  {
    q.nTodo + 2 * |q.queue| + Sum(Rank, q.threads)
  }

  lemma CleanUpLowers(q: State, t: nat)
    requires t < |q.threads|
    ensures Potential(CleanUp(q, t)) <= Potential(q)
    ensures |CleanUp(q, t).threads| == |q.threads|
    ensures q.threads[t].pc == AtTop ==> CleanUp(q, t).threads[t].pc == AtTop
  {
    hide Sum;
    SumUpdate(Rank, q.threads, 0, q.threads[0].(pc := Woken));
  }

  lemma DecideLowers(q: State, t: nat, nBatchSize: nat)
    requires t < |q.threads| && q.nTotal + q.nIdle + 1 > 0 && Rank(q.threads[t]) == 1
    ensures var q' := Decide(q, t, nBatchSize); Potential(q') < Potential(q)
  {
    hide Sum, PopBack, BatchSize;
    SumUpdate(Rank, q.threads, t, Decide(q, t, nBatchSize).threads[t]);
  }

  lemma OwnStepLowers(q: State, a: Action, nBatchSize: nat)
    requires Inv(q) && Enabled(q, a) && Own(a)
    ensures Potential(Step(q, a, nBatchSize)) < Potential(q)
  {
    hide Inv, Sum, Decide, CleanUp, AllOk;
    match a
    case Evaluate(t) => SumUpdate(Rank, q.threads, t, Step(q, a, nBatchSize).threads[t]);
    case Relock(t) => DecideLowers(q.(nIdle := q.nIdle - 1), t, nBatchSize);
    case Lock(t) =>
      CleanUpHolds(q, t);
      CleanUpLowers(q, t);
      DecideLowers(CleanUp(q, t), t, nBatchSize);
  }

  lemma SpuriousRaises(q: State, t: nat, nBatchSize: nat)
    requires Enabled(q, SpuriousWake(t))
    ensures var q' := Step(q, SpuriousWake(t), nBatchSize);
      && Potential(q') == Potential(q) + 1
      && (q.threads[0].pc != Outside ==> q'.threads[0].pc != Outside) && q'.rounds == q.rounds && q'.added == q.added
  {
    hide Sum;
    SumUpdate(Rank, q.threads, t, q.threads[t].(pc := Woken));
  }

  lemma {:induction false} RankSum(ths: seq<Thread>)
    ensures Sum(Rank, ths) <= 2 * |ths|
  {
    if ths != [] { RankSum(ths[..|ths| - 1]); }
  }

  lemma PotentialBounds(q: State)
    requires Inv(q)
    ensures 0 <= Potential(q) <= 3 * q.nTodo + 2 * |q.threads|
  {
    hide Sum;
    RankSum(q.threads);
  }

  lemma {:induction false} ThreadsStay(run: seq<State>, actions: seq<Action>, workers: nat, nBatchSize: nat, k: nat)
    requires IsRun(run, actions, workers, nBatchSize) && k < |run|
    ensures |run[k].threads| == workers + 1
  {
    hide Step, Enabled;
    if k > 0 {
      ThreadsStay(run, actions, workers, nBatchSize, k - 1);
      SameThreads(run[k - 1], actions[k - 1], nBatchSize);
    }
  }

  lemma SameThreads(q: State, a: Action, nBatchSize: nat)
    requires Enabled(q, a)
    ensures |Step(q, a, nBatchSize).threads| == |q.threads|
  {
    hide PopBack, BatchSize, AllOk;
  }

  /** The master waits in all states from i to j. */
  ghost predicate Waiting(run: seq<State>, i: nat, j: nat)
  {
    && i <= j < |run|
    && forall k | i <= k <= j :: |run[k].threads| > 0 && run[k].threads[0].pc != Outside
  }

  /** While the master waits, the round stays open, and the potential pays for all steps but the spurious
      wake-ups, which add to it. */
  lemma {:induction false} WaitPays(run: seq<State>, actions: seq<Action>, workers: nat, nBatchSize: nat, i: nat,
      j: nat)
    requires IsRun(run, actions, workers, nBatchSize) && Waiting(run, i, j)
    ensures j - i + Potential(run[j]) <= Potential(run[i]) + 2 * SpuriousIn(actions[i..j])
    ensures run[j].rounds == run[i].rounds && run[j].added == run[i].added
    decreases j
  {
    hide Inv, Step, Enabled, Potential;
    if i == j {
      assert actions[i..j] == [];
    } else {
      var k := j - 1;
      WaitPays(run, actions, workers, nBatchSize, i, k);
      RunInv(run, actions, workers, nBatchSize, k);
      assert actions[i..j][..k - i] == actions[i..k] && actions[i..j][k - i] == actions[k];
      assert Enabled(run[k], actions[k]) && run[j] == Step(run[k], actions[k], nBatchSize);
      OnlyThreads(run[k], actions[k]);
      if Own(actions[k]) {
        OwnStepLowers(run[k], actions[k], nBatchSize);
        OwnStepRounds(run[k], actions[k], nBatchSize);
      } else {
        SpuriousRaises(run[k], actions[k].t, nBatchSize);
      }
    }
  }

  /** While the master waits, only threads move. */
  lemma OnlyThreads(q: State, a: Action)
    requires Enabled(q, a) && |q.threads| > 0 && q.threads[0].pc != Outside
    ensures Own(a) || a.SpuriousWake?
  {
  }

  /** In every run, however it is scheduled, a wait takes at most three steps for each open check, two for
      each thread and two for each spurious wake-up: from a waiting master, a longer stretch of the run
      passes a state in which the wait has ended with the verdict on the checks of its round. */
  lemma EveryWaitEnds(run: seq<State>, actions: seq<Action>, workers: nat, nBatchSize: nat, i: nat, j: nat)
      returns (k: nat)
    requires IsRun(run, actions, workers, nBatchSize) && i <= j < |run| && Waiting(run, i, i)
    requires j - i > 3 * run[i].nTodo + 2 * (workers + 1) + 2 * SpuriousIn(actions[i..j])
    ensures i < k <= j && |run[k].threads| > 0 && run[k].threads[0].pc == Outside && Waiting(run, i, k - 1)
    ensures |run[k].rounds| == |run[i].rounds| + 1 && run[k].rounds[..|run[i].rounds|] == run[i].rounds
    ensures run[k].rounds[|run[i].rounds|].checks == run[i].added
    ensures run[k].rounds[|run[i].rounds|].ok == AllOk(run[i].added)
  {
    hide Inv, Step, Enabled, Potential, AllOk, SpuriousIn;
    k := i;
    while k < j && run[k].threads[0].pc != Outside
      invariant i <= k <= j && |run[k].threads| > 0
      invariant forall l | i <= l < k :: |run[l].threads| > 0 && run[l].threads[0].pc != Outside
    {
      k := k + 1;
      ThreadsStay(run, actions, workers, nBatchSize, k);
    }
    if run[k].threads[0].pc != Outside {
      WaitPays(run, actions, workers, nBatchSize, i, j);
      RunInv(run, actions, workers, nBatchSize, i);
      RunInv(run, actions, workers, nBatchSize, j);
      PotentialBounds(run[i]);
      PotentialBounds(run[j]);
      ThreadsStay(run, actions, workers, nBatchSize, i);
      assert false;
    }
    var l := k - 1;
    WaitPays(run, actions, workers, nBatchSize, i, l);
    RunInv(run, actions, workers, nBatchSize, l);
    assert Enabled(run[l], actions[l]) && run[k] == Step(run[l], actions[l], nBatchSize);
    OnlyThreads(run[l], actions[l]);
    if actions[l].SpuriousWake? {
      SpuriousRaises(run[l], actions[l].t, nBatchSize);
    } else {
      OwnStepRounds(run[l], actions[l], nBatchSize);
    }
  }
}
