/** Runs over a stack of coin caches, and the money they hold. */
module CoinsRun {
  import opened Coins

  const SATOSHI := 1
  const COIN := 100_000_000 * SATOSHI
  const SPOCK_SATS := 100_000
  const MAX_MONEY := 2_000_000_000 * COIN

  ghost predicate MoneyRange(value: int)
  {
    0 <= value <= MAX_MONEY
  }

  /** The remainder of a division that truncates toward zero: it has the sign of the dividend. */
  function TruncMod(a: int, b: int): (r: int)
    requires b > 0
    ensures -b < r < b && (a >= 0 ==> r >= 0) && (a <= 0 ==> r <= 0)
  {
    if a >= 0 then a % b else -((-a) % b)
  }

  function SpockQuantize(a: int): (q: int)
  {
    var residual := TruncMod(a, SPOCK_SATS);
    var q := a - residual;
    if residual > 0 then q + SPOCK_SATS else q
  }

  /** Quantizing rounds up to the next multiple of a spock, for negative amounts too; the result is
      never the marker of a spent coin, and money stays in range. */
  lemma SpockRoundsUp(a: int)
    ensures SpockQuantize(a) % SPOCK_SATS == 0 && a <= SpockQuantize(a) < a + SPOCK_SATS
    ensures SpockQuantize(a) != -1
    ensures 0 <= a <= 200_000_000_000_000_000 ==> 0 <= SpockQuantize(a) <= 200_000_000_000_000_000
  {
    if a < 0 {
      var k := (-a) / SPOCK_SATS;
      assert SpockQuantize(a) == -(SPOCK_SATS * k);
      assert (-(SPOCK_SATS * k)) % SPOCK_SATS == 0;
    }
  }

  datatype TxOut = TxOut(value: int, script: seq<int>)
  datatype Tx = Tx(txid: int, coinbase: bool, vout: seq<TxOut>)

  function OutCoin(tx: Tx, height: int, i: nat): Coin
    requires i < |tx.vout|
  {
    Coin(SpockQuantize(tx.vout[i].value), tx.vout[i].script, height, tx.coinbase)
  }

  /** A plain map after the first n outputs were added. */
  ghost function AddOutputs(view: View, tx: Tx, height: int, n: nat): View
    requires n <= |tx.vout|
  {
    if n == 0 then view
    else
      var v := AddOutputs(view, tx, height, n - 1);
      if IsUnspendable(tx.vout[n - 1].script) then v else v[OutPoint(tx.txid, n - 1) := OutCoin(tx, height, n - 1)]
  }

  lemma {:induction false} AddOutputsOther(view: View, tx: Tx, height: int, n: nat, o: OutPoint)
    requires n <= |tx.vout| && !(o.txid == tx.txid && o.n < n)
    ensures o in AddOutputs(view, tx, height, n) <==> o in view
    ensures o in view ==> AddOutputs(view, tx, height, n)[o] == view[o]
  {
    if n > 0 {
      AddOutputsOther(view, tx, height, n - 1, o);
    }
  }

  /** After adding a transaction each spendable output is there, with its script, the block's height, the coinbase
      mark and its value rounded up to a whole spock; every other outpoint is as before. */
  ghost predicate OutputsAdded(before: View, tx: Tx, height: int, after: View)
  {
    && (forall i | 0 <= i < |tx.vout| && !IsUnspendable(tx.vout[i].script) ::
          && OutPoint(tx.txid, i) in after
          && var coin, out := after[OutPoint(tx.txid, i)], tx.vout[i];
          && coin.script == out.script && coin.height == height && coin.coinbase == tx.coinbase
          && coin.value % 100_000 == 0 && out.value <= coin.value < out.value + 100_000)
    && (forall o | !IsOutput(tx, o) :: SameAt(before, after, o))
  }

  /** A spendable output of the transaction. */
  ghost predicate IsOutput(tx: Tx, o: OutPoint)
  {
    o.txid == tx.txid && o.n < |tx.vout| && !IsUnspendable(tx.vout[o.n].script)
  }

  ghost predicate SameAt(before: View, after: View, o: OutPoint)
  {
    (o in after <==> o in before) && (o in before ==> after[o] == before[o])
  }

  lemma {:induction false} AddOutputsAt(view: View, tx: Tx, height: int, n: nat, o: OutPoint)
    requires n <= |tx.vout|
    ensures var v := AddOutputs(view, tx, height, n);
      if o.n < n && IsOutput(tx, o) then o in v && v[o] == OutCoin(tx, height, o.n) else SameAt(view, v, o)
  {
    hide IsUnspendable, OutCoin;
    if n > 0 { AddOutputsAt(view, tx, height, n - 1, o); }
  }

  lemma AllOutputsAdded(view: View, tx: Tx, height: int)
    ensures OutputsAdded(view, tx, height, AddOutputs(view, tx, height, |tx.vout|))
  {
    hide IsUnspendable, AddOutputs, SpockQuantize;
    var v := AddOutputs(view, tx, height, |tx.vout|);
    forall i | 0 <= i < |tx.vout| && !IsUnspendable(tx.vout[i].script)
      ensures OutPoint(tx.txid, i) in v && v[OutPoint(tx.txid, i)] == OutCoin(tx, height, i)
    {
      AddOutputsAt(view, tx, height, |tx.vout|, OutPoint(tx.txid, i));
    }
    forall i | 0 <= i < |tx.vout| ensures SpockQuantize(tx.vout[i].value) % 100_000 == 0
      && tx.vout[i].value <= SpockQuantize(tx.vout[i].value) < tx.vout[i].value + 100_000 {
      SpockRoundsUp(tx.vout[i].value);
    }
    forall o | !IsOutput(tx, o) ensures SameAt(view, v, o) { AddOutputsAt(view, tx, height, |tx.vout|, o); }
  }

  /** When told not to look, only a coinbase may replace unspent outputs. */
  ghost predicate MayAdd(view: View, tx: Tx, check: bool)
  {
    check || tx.coinbase || forall i | 0 <= i < |tx.vout| :: OutPoint(tx.txid, i) !in view
  }

  method AddCoins(cache: CoinsCache, tx: Tx, height: int, check: bool) returns (threw: bool)
    requires cache.Valid() && MayAdd(cache.Visible(), tx, check)
    modifies cache, cache.below
    ensures !threw && cache.Valid() && cache.Below() == old(cache.Below())
    ensures cache.Visible() == AddOutputs(old(cache.Visible()), tx, height, |tx.vout|)
    ensures OutputsAdded(old(cache.Visible()), tx, height, cache.Visible())
  {
    hide Overlay, CacheOk, OutputsAdded;
    ghost var view0 := cache.Visible();
    for i := 0 to |tx.vout|
      invariant cache.Valid() && cache.Below() == old(cache.Below())
      invariant cache.Visible() == AddOutputs(view0, tx, height, i)
    {
      var o := OutPoint(tx.txid, i);
      var overwrite := tx.coinbase;
      if check {
        overwrite := cache.HaveCoin(o);
      }
      AddOutputsOther(view0, tx, height, i, o);
      var coin := Coin(SpockQuantize(tx.vout[i].value), tx.vout[i].script, height, tx.coinbase);
      SpockRoundsUp(tx.vout[i].value);
      CachedVisible(cache, o);
      var t := cache.AddCoin(o, coin, overwrite);
      assert !t;
    }
    AllOutputsAdded(view0, tx, height);
    threw := false;
  }

  lemma CachedVisible(cache: CoinsCache, o: OutPoint)
    requires cache.Valid()
    ensures o in cache.cacheCoins && !cache.cacheCoins[o].coin.IsSpent() ==> o in cache.Visible()
  {
    NotVisible(cache.cacheCoins, cache.BaseView(), o);
  }

  // ---- Runs over a stack of any depth -------------------------------------

  datatype Op =
    | Add(o: OutPoint, coin: Coin, possibleOverwrite: bool)
    | AddTx(tx: Tx, height: int, check: bool)
    | Spend(o: OutPoint)
    | Have(o: OutPoint)
    | Uncache(o: OutPoint)
    | Flush
    | Push
    | Pop

  ghost function Top(views: seq<View>): View
    requires |views| > 0
  {
    views[|views| - 1]
  }

  /** The reference: every level is a plain map of its own, the database first. */
  ghost function Step(views: seq<View>, op: Op): (r: seq<View>)
    requires |views| > 1
    ensures |r| > 1
  {
    var n := |views| - 1;
    match op
    case Add(o, coin, _) => if IsUnspendable(coin.script) then views else views[n := views[n][o := coin]]
    case AddTx(tx, height, _) => views[n := AddOutputs(views[n], tx, height, |tx.vout|)]
    case Spend(o) => views[n := views[n] - {o}]
    case Have(_) => views
    case Uncache(_) => views
    case Flush => views[n - 1 := views[n]]
    case Push => views + [views[n]]
    case Pop => if |views| > 2 then views[..n] else views
  }

  /** Callers rule out an overwrite only where no unspent coin is visible. */
  ghost predicate Permitted(views: seq<View>, op: Op)
    requires |views| > 1
  {
    match op
    case Add(o, coin, possibleOverwrite) => !coin.IsSpent() && (possibleOverwrite || o !in Top(views))
    case AddTx(tx, _, check) => MayAdd(Top(views), tx, check)
    case _ => true
  }

  ghost predicate AllPermitted(views: seq<View>, ops: seq<Op>)
    requires |views| > 1
    decreases |ops|
  {
    ops != [] ==> Permitted(views, ops[0]) && AllPermitted(Step(views, ops[0]), ops[1..])
  }

  ghost function Steps(views: seq<View>, ops: seq<Op>): (r: seq<View>)
    requires |views| > 1
    ensures |r| > 1
    decreases |ops|
  {
    if ops == [] then views else Steps(Step(views, ops[0]), ops[1..])
  }

  method Apply(top: CoinsCache, op: Op) returns (cur: CoinsCache, threw: bool)
    requires top.Valid() && Permitted(top.Views(), op)
    modifies top, top.below
    ensures !threw && cur.Valid() && cur.Views() == Step(old(top.Views()), op)
    ensures fresh({cur} + cur.below - {top} - top.below)
  {
    hide Overlay, CacheOk, AddOutputs, MayAdd;
    cur, threw := top, false;
    ghost var views, n := top.Views(), |top.Views()| - 1;
    match op
    case Add(o, coin, possibleOverwrite) =>
      CachedVisible(top, o);
      threw := top.AddCoin(o, coin, possibleOverwrite);
    case AddTx(tx, height, check) => threw := AddCoins(top, tx, height, check);
    case Spend(o) => var _, _ := top.SpendCoin(o);
    case Have(o) => var _ := top.HaveCoin(o);
    case Uncache(o) => top.Uncache(o);
    case Flush => threw := top.Flush();
    case Push =>
      cur := new CoinsCache(top, top.db);
      EmptyCache(cur.BaseView());
    case Pop =>
      if top.parent != null {
        cur := top.parent;
        assert views[..n] == cur.Views();
      }
  }

  /** For any depth of caches and any permitted run, every level shows what a plain map of its own
      would show, and no logic error is ever thrown. */
  method Run(top: CoinsCache, ops: seq<Op>) returns (cur: CoinsCache, threw: bool)
    requires top.Valid() && AllPermitted(top.Views(), ops)
    modifies top, top.below
    ensures !threw && cur.Valid() && cur.Views() == Steps(old(top.Views()), ops)
  {
    hide Step, Permitted;
    cur, threw := top, false;
    ghost var views0 := top.Views();
    assert ops[0..] == ops;
    for i := 0 to |ops|
      invariant !threw && cur.Valid() && AllPermitted(cur.Views(), ops[i..])
      invariant Steps(cur.Views(), ops[i..]) == Steps(views0, ops)
      invariant fresh({cur} + cur.below - {top} - top.below)
    {
      assert ops[i..][1..] == ops[i + 1..] && ops[i..][0] == ops[i];
      cur, threw := Apply(cur, ops[i]);
    }
  }

  // ---- Money --------------------------------------------------------------

  ghost function Pick(view: View): (o: OutPoint)
    requires |view| > 0
    ensures o in view
  {
    var o :| o in view; o
  }

  ghost function Total(view: View): int
    decreases |view|
  {
    if |view| == 0 then 0
    else
      var o := Pick(view);
      Smaller(view, o);
      view[o].value + Total(view - {o})
  }

  lemma Smaller(view: View, o: OutPoint)
    requires o in view
    ensures |view - {o}| == |view| - 1
  {
    assert (view - {o}).Keys == view.Keys - {o};
  }

  lemma TotalStep(view: View)
    requires |view| > 0
    ensures Total(view) == view[Pick(view)].value + Total(view - {Pick(view)})
  {
  }

  lemma {:induction false} TotalWithout(view: View, o: OutPoint)
    requires o in view
    ensures Total(view) == view[o].value + Total(view - {o})
    decreases |view|
  {
    hide Total, Pick;
    Smaller(view, o);
    var p := Pick(view);
    TotalStep(view);
    if p != o {
      Smaller(view, p);
      TotalWithout(view - {p}, o);
      TotalWithout(view - {o}, p);
      assert view - {p} - {o} == view - {o} - {p};
    }
  }

  ghost function ValueAt(view: View, o: OutPoint): int
  {
    if o in view then view[o].value else 0
  }

  lemma TotalPut(view: View, o: OutPoint, coin: Coin)
    ensures Total(view[o := coin]) == Total(view) - ValueAt(view, o) + coin.value
    ensures Total(view - {o}) == Total(view) - ValueAt(view, o)
  {
    hide Total;
    TotalWithout(view[o := coin], o);
    if o in view {
      TotalWithout(view, o);
      assert view[o := coin] - {o} == view - {o};
    } else {
      assert view[o := coin] - {o} == view && view - {o} == view;
    }
  }

  /** What the spendable ones of the first n outputs bring in, rounded up to spocks. */
  ghost function Minted(tx: Tx, n: nat): int
    requires n <= |tx.vout|
  {
    if n == 0 then 0
    else Minted(tx, n - 1) + if IsUnspendable(tx.vout[n - 1].script) then 0 else SpockQuantize(tx.vout[n - 1].value)
  }

  /** What the first n outputs overwrite. */
  ghost function Replaced(view: View, tx: Tx, n: nat): int
    requires n <= |tx.vout|
  {
    if n == 0 then 0
    else
      Replaced(view, tx, n - 1)
      + if IsUnspendable(tx.vout[n - 1].script) then 0 else ValueAt(view, OutPoint(tx.txid, n - 1))
  }

  lemma {:induction false} TotalAfterTx(view: View, tx: Tx, height: int, n: nat)
    requires n <= |tx.vout|
    ensures Total(AddOutputs(view, tx, height, n)) == Total(view) + Minted(tx, n) - Replaced(view, tx, n)
  {
    hide Total;
    if n > 0 {
      TotalAfterTx(view, tx, height, n - 1);
      var o := OutPoint(tx.txid, n - 1);
      AddOutputsOther(view, tx, height, n - 1, o);
      TotalPut(AddOutputs(view, tx, height, n - 1), o, OutCoin(tx, height, n - 1));
    }
  }

  datatype Move = Connect(tx: Tx, height: int) | Consume(o: OutPoint) | WriteBack

  ghost function After(view: View, moves: seq<Move>): View
    decreases |moves|
  {
    if moves == [] then view
    else match moves[0]
      case Connect(tx, height) => After(AddOutputs(view, tx, height, |tx.vout|), moves[1..])
      case Consume(o) => After(view - {o}, moves[1..])
      case WriteBack => After(view, moves[1..])
  }

  ghost function Added(moves: seq<Move>): int
  {
    if moves == [] then 0
    else Added(moves[1..]) + if moves[0].Connect? then Minted(moves[0].tx, |moves[0].tx.vout|) else 0
  }

  /** The values of unspent coins spent or overwritten along a run. */
  ghost function Gone(view: View, moves: seq<Move>): int
    decreases |moves|
  {
    if moves == [] then 0
    else match moves[0]
      case Connect(tx, height) =>
        Replaced(view, tx, |tx.vout|) + Gone(AddOutputs(view, tx, height, |tx.vout|), moves[1..])
      case Consume(o) => ValueAt(view, o) + Gone(view - {o}, moves[1..])
      case WriteBack => Gone(view, moves[1..])
  }

  /** Conservation: nothing enters or leaves the total but what the run added, spent or overwrote. */
  lemma {:induction false} Conservation(view: View, moves: seq<Move>)
    ensures Total(After(view, moves)) == Total(view) + Added(moves) - Gone(view, moves)
    decreases |moves|
  {
    hide Total;
    if moves != [] {
      match moves[0]
      case Connect(tx, height) =>
        TotalAfterTx(view, tx, height, |tx.vout|);
        Conservation(AddOutputs(view, tx, height, |tx.vout|), moves[1..]);
      case Consume(o) =>
        TotalPut(view, o, NULL_COIN);
        Conservation(view - {o}, moves[1..]);
      case WriteBack => Conservation(view, moves[1..]);
    }
  }

  ghost predicate InRange(tx: Tx)
  {
    forall i | 0 <= i < |tx.vout| :: MoneyRange(tx.vout[i].value)
  }

  ghost predicate AllInRange(moves: seq<Move>)
  {
    forall i | 0 <= i < |moves| && moves[i].Connect? :: InRange(moves[i].tx)
  }

  /** Every coin is worth whole spocks and is in range. */
  ghost predicate SpockView(view: View)
  {
    forall o | o in view :: view[o].value % SPOCK_SATS == 0 && MoneyRange(view[o].value)
  }

  lemma {:induction false} OutputsAreSpocks(view: View, tx: Tx, height: int, n: nat)
    requires n <= |tx.vout| && SpockView(view) && InRange(tx)
    ensures SpockView(AddOutputs(view, tx, height, n))
  {
    if n > 0 {
      OutputsAreSpocks(view, tx, height, n - 1);
      SpockRoundsUp(tx.vout[n - 1].value);
    }
  }

  /** In every run from whole spocks, all visible coins stay whole spocks in range. */
  lemma {:induction false} RunKeepsSpocks(view: View, moves: seq<Move>)
    requires SpockView(view) && AllInRange(moves)
    ensures SpockView(After(view, moves))
    decreases |moves|
  {
    if moves != [] {
      match moves[0]
      case Connect(tx, height) =>
        OutputsAreSpocks(view, tx, height, |tx.vout|);
        RunKeepsSpocks(AddOutputs(view, tx, height, |tx.vout|), moves[1..]);
      case Consume(o) => RunKeepsSpocks(view - {o}, moves[1..]);
      case WriteBack => RunKeepsSpocks(view, moves[1..]);
    }
  }

  ghost function RawValue(tx: Tx, n: nat): int
    requires n <= |tx.vout|
  {
    if n == 0 then 0 else RawValue(tx, n - 1) + if IsUnspendable(tx.vout[n - 1].script) then 0 else tx.vout[n - 1].value
  }

  ghost function SpendableCount(tx: Tx, n: nat): nat
    requires n <= |tx.vout|
  {
    if n == 0 then 0 else SpendableCount(tx, n - 1) + if IsUnspendable(tx.vout[n - 1].script) then 0 else 1
  }

  /** Rounding gives each spendable output less than one spock. */
  lemma {:induction false} RoundingGain(tx: Tx, n: nat)
    requires n <= |tx.vout|
    ensures 0 <= Minted(tx, n) - RawValue(tx, n) <= (SPOCK_SATS - 1) * SpendableCount(tx, n)
  {
    if n > 0 {
      RoundingGain(tx, n - 1);
      SpockRoundsUp(tx.vout[n - 1].value);
    }
  }

  /** The cached view follows the run, so the three results above hold of it. */
  method RunMoves(cache: CoinsCache, moves: seq<Move>) returns (threw: bool)
    requires cache.Valid() && SpockView(cache.Visible()) && AllInRange(moves)
    modifies cache, cache.below
    ensures !threw && cache.Valid() && cache.Visible() == After(old(cache.Visible()), moves)
    ensures SpockView(cache.Visible())
    ensures Total(cache.Visible()) == Total(old(cache.Visible())) + Added(moves) - Gone(old(cache.Visible()), moves)
  {
    hide Overlay, CacheOk, AddOutputs, Added, Gone, Total;
    threw := false;
    ghost var view0 := cache.Visible();
    Conservation(view0, moves);
    RunKeepsSpocks(view0, moves);
    assert moves[0..] == moves;
    for i := 0 to |moves|
      invariant !threw && cache.Valid() && After(cache.Visible(), moves[i..]) == After(view0, moves)
    {
      assert moves[i..][1..] == moves[i + 1..] && moves[i..][0] == moves[i];
      match moves[i]
      case Connect(tx, height) => threw := AddCoins(cache, tx, height, true);
      case Consume(o) => var _, _ := cache.SpendCoin(o);
      case WriteBack => threw := cache.Flush();
    }
  }
}
