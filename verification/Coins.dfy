/** The layered cache of unspent transaction outputs. */
module Coins {

  datatype OutPoint = OutPoint(txid: int, n: nat)

  /** A transaction output in the UTXO set; a value of -1 marks a spent one. */
  datatype Coin = Coin(value: int, script: seq<int>, height: int, coinbase: bool)
  {
    predicate IsSpent() { value == -1 }
  }

  const NULL_COIN := Coin(-1, [], 0, false)
  const OP_RETURN := 0x6a
  const MAX_SCRIPT_SIZE := 10000

  predicate IsUnspendable(script: seq<int>): (r: bool)
    ensures r <==> [0x6a] <= script || |script| > 10_000
  {
    (|script| > 0 && script[0] == OP_RETURN) || |script| > MAX_SCRIPT_SIZE
  }

  /** dirty: may differ from the parent view; unborn (FRESH): the parent view has no unspent coin. */
  datatype Entry = Entry(coin: Coin, dirty: bool, unborn: bool)

  type CoinsMap = map<OutPoint, Entry>

  /** The unspent coins a view shows. */
  type View = map<OutPoint, Coin>

  ghost function Unspent(records: map<OutPoint, Coin>): View
  {
    map o | o in records && !records[o].IsSpent() :: records[o]
  }

  /** A cached coin, spent or not, is what the base view shows. */
  ghost predicate Shows(coin: Coin, base: View, o: OutPoint)
  {
    if coin.IsSpent() then o !in base else o in base && base[o] == coin
  }

  ghost predicate EntryOk(e: Entry, base: View, o: OutPoint)
  {
    (!e.dirty ==> Shows(e.coin, base, o)) && (e.unborn ==> o !in base)
  }

  ghost predicate CacheOk(cache: CoinsMap, base: View)
  {
    forall o | o in cache :: EntryOk(cache[o], base, o)
  }

  /** What a cache on top of a base view shows. */
  ghost function Overlay(cache: CoinsMap, base: View): View
  {
    map o | o in base.Keys + cache.Keys && (o in cache ==> !cache[o].coin.IsSpent()) ::
      if o in cache then cache[o].coin else base[o]
  }

  /** Removing or setting one coin of a view. */
  ghost function With(view: View, o: OutPoint, coin: Coin): View
  {
    if coin.IsSpent() then view - {o} else view[o := coin]
  }

  lemma OverlayWrite(cache: CoinsMap, base: View, o: OutPoint, e: Entry)
    ensures Overlay(cache[o := e], base) == With(Overlay(cache, base), o, e.coin)
  {
  }

  lemma OverlayErase(cache: CoinsMap, base: View, o: OutPoint)
    requires o in cache
    ensures o !in base ==> Overlay(cache - {o}, base) == Overlay(cache, base) - {o}
    ensures Shows(cache[o].coin, base, o) ==> Overlay(cache - {o}, base) == Overlay(cache, base)
  {
  }

  lemma WithSame(view: View, o: OutPoint, coin: Coin)
    requires Shows(coin, view, o)
    ensures With(view, o, coin) == view
  {
  }

  /** The bottom of a stack: the coin database. */
  class CoinsDB {
    var records: map<OutPoint, Coin>

    constructor (records: map<OutPoint, Coin>)
      ensures this.records == records
    {
      this.records := records;
    }

    ghost function Visible(): View
      reads this
    {
      Unspent(records)
    }

    /** May also find a record whose coin is spent. */
    method GetCoin(o: OutPoint) returns (found: bool, coin: Coin)
      ensures found <==> o in records
      ensures found ==> coin == records[o] && Shows(coin, Visible(), o)
      ensures !found ==> o !in Visible()
    {
      found := o in records;
      coin := if found then records[o] else NULL_COIN;
    }

    /** Writes the dirty entries, in any order. */
    method BatchWrite(child: CoinsMap)
      modifies this
      ensures Visible() == Applied(old(Visible()), child)
    {
      hide Applied, Unspent, Split, With;
      ghost var view0, done := Visible(), map[];
      var todo := child;
      AppliedNone(view0);
      SplitStart(child, child);
      while |todo| > 0
        invariant Split(child, done, todo)
        invariant Visible() == Applied(view0, done)
        decreases |todo|
      {
        var o :| o in todo;
        var e := todo[o];
        if e.dirty {
          UnspentWrite(records, o, e.coin);
          records := if e.coin.IsSpent() then records - {o} else records[o := e.coin];
        }
        SplitNext(child, done, todo, o);
        AppliedNext(view0, done, o, e);
        done, todo := done[o := e], todo - {o};
      }
      SplitDone(child, done, todo);
    }
  }

  /** A map being drained: what was taken out and what is left. */
  ghost predicate Split(all: CoinsMap, done: CoinsMap, todo: CoinsMap)
  {
    && (forall o | o in all :: o in done || o in todo)
    && (forall o | o in done :: o in all && done[o] == all[o] && o !in todo)
    && (forall o | o in todo :: o in all && todo[o] == all[o])
  }

  lemma SplitNext(all: CoinsMap, done: CoinsMap, todo: CoinsMap, o: OutPoint)
    requires Split(all, done, todo) && o in todo
    ensures Split(all, done[o := todo[o]], todo - {o}) && |todo - {o}| < |todo|
    ensures o in all && all[o] == todo[o] && o !in done
  {
    assert (todo - {o}).Keys == todo.Keys - {o};
  }

  lemma SplitDone(all: CoinsMap, done: CoinsMap, todo: CoinsMap)
    requires Split(all, done, todo) && |todo| == 0
    ensures done == all
  {
    assert todo.Keys == {};
  }

  /** A view after the dirty entries of a child were written to it. */
  ghost function Applied(view: View, child: CoinsMap): View
  {
    map o | o in view.Keys + child.Keys && (if o in child
      && child[o].dirty then !child[o].coin.IsSpent() else o in view) ::
      if o in child && child[o].dirty then child[o].coin else view[o]
  }

  lemma AppliedNone(view: View)
    ensures Applied(view, map[]) == view
  {
  }

  lemma AppliedNext(view: View, done: CoinsMap, o: OutPoint, e: Entry)
    requires o !in done
    ensures Applied(view, done[o := e]) == if e.dirty then With(Applied(view, done), o, e.coin) else Applied(view, done)
    ensures o in Applied(view, done) <==> o in view
  {
  }

  lemma UnspentWrite(records: map<OutPoint, Coin>, o: OutPoint, coin: Coin)
    ensures Unspent(if coin.IsSpent() then records - {o} else records[o := coin]) == With(Unspent(records), o, coin)
  {
  }

  /** Writing a consistent cache to its base makes the base show what the cache showed. */
  lemma AppliedIsOverlay(cache: CoinsMap, base: View)
    requires CacheOk(cache, base)
    ensures Applied(base, cache) == Overlay(cache, base)
  {
    forall o | o in cache ensures EntryOk(cache[o], base, o) { }
  }

  /** A write-back cache over the database or over another cache. */
  class CoinsCache {
    const parent: CoinsCache?
    const db: CoinsDB
    ghost const depth: nat
    /** All objects below this one. */
    ghost const below: set<object>
    var cacheCoins: CoinsMap

    constructor (parent: CoinsCache?, db: CoinsDB)
      requires parent != null ==> parent.Linked() && parent.db == db
      ensures Linked() && this.parent == parent && this.db == db && cacheCoins == map[]
    {
      this.parent, this.db := parent, db;
      depth := if parent == null then 0 else parent.depth + 1;
      below := if parent == null then {db} else parent.below + {parent};
      cacheCoins := map[];
      new;
    }

    ghost predicate Linked()
      decreases depth
    {
      && this !in below && db in below
      && (parent == null ==> below == {db})
      && (parent != null ==>
        parent.depth < depth && parent.db == db && below == parent.below + {parent} && parent.Linked())
    }

    ghost function BaseView(): (v: View)
      requires Linked()
      reads below
      decreases depth, 0
    {
      if parent == null then db.Visible() else parent.Visible()
    }

    ghost function Visible(): View
      requires Linked()
      reads this, below
      decreases depth, 1
    {
      Overlay(cacheCoins, BaseView())
    }

    /** The views of all levels below, the database first. */
    ghost function Below(): (vs: seq<View>)
      requires Linked()
      reads below
      ensures |vs| > 0 && vs[|vs| - 1] == BaseView()
      decreases depth, 2
    {
      if parent == null then [db.Visible()] else parent.Views()
    }

    /** The views of all levels up to this one. */
    ghost function Views(): seq<View>
      requires Linked()
      reads this, below
      decreases depth, 3
    {
      Below() + [Visible()]
    }

    ghost predicate Valid()
      reads this, below
      decreases depth
    {
      Linked() && CacheOk(cacheCoins, BaseView()) && (parent != null ==> parent.Valid())
    }

    /** The coin of the view below; from the database it may be a spent one. */
    method BaseGetCoin(o: OutPoint) returns (found: bool, coin: Coin)
      requires Valid()
      modifies below
      ensures Valid() && Below() == old(Below())
      ensures found ==> Shows(coin, BaseView(), o)
      ensures !found ==> o !in BaseView()
      decreases depth, 0
    {
      hide Overlay;
      if parent == null {
        found, coin := db.GetCoin(o);
      } else {
        found, coin := parent.GetCoin(o);
      }
    }

    /** Loads an entry from below unless it is already cached. */
    method FetchCoin(o: OutPoint) returns (found: bool)
      requires Valid()
      modifies this, below
      ensures Valid() && Below() == old(Below()) && Visible() == old(Visible())
      ensures found <==> o in cacheCoins
      ensures o in old(cacheCoins) ==> cacheCoins == old(cacheCoins)
      ensures o in Visible() ==> found
      ensures found ==> (o in Visible() <==> !cacheCoins[o].coin.IsSpent())
      ensures found && o in Visible() ==> cacheCoins[o].coin == Visible()[o]
      decreases depth, 1
    {
      if o in cacheCoins {
        return true;
      }
      var coin;
      found, coin := BaseGetCoin(o);
      if !found {
        return;
      }
      OverlayWrite(cacheCoins, BaseView(), o, Entry(coin, false, coin.IsSpent()));
      WithSame(Visible(), o, coin);
      cacheCoins := cacheCoins[o := Entry(coin, false, coin.IsSpent())];
    }

    method GetCoin(o: OutPoint) returns (found: bool, coin: Coin)
      requires Valid()
      modifies this, below
      ensures Valid() && Below() == old(Below()) && Visible() == old(Visible())
      ensures found <==> o in Visible()
      ensures found ==> coin == Visible()[o] && !coin.IsSpent()
      decreases depth, 2
    {
      hide Overlay, CacheOk;
      found := FetchCoin(o);
      if !found {
        return false, NULL_COIN;
      }
      coin := cacheCoins[o].coin;
      found := !coin.IsSpent();
    }

    method HaveCoin(o: OutPoint) returns (have: bool)
      requires Valid()
      modifies this, below
      ensures Valid() && Below() == old(Below()) && Visible() == old(Visible())
      ensures have <==> o in Visible()
    {
      hide Overlay, CacheOk;
      var found := FetchCoin(o);
      have := found && !cacheCoins[o].coin.IsSpent();
    }

    /** Adds a coin. Throws when told that no coin can be overwritten but an unspent one is cached.
        The layer stays consistent exactly when it throws, the script is unspendable, an overwrite
        was allowed for, or no unspent coin was visible. */
    method AddCoin(o: OutPoint, coin: Coin, possibleOverwrite: bool) returns (threw: bool)
      requires Valid() && !coin.IsSpent()
      modifies this
      ensures Below() == old(Below())
      ensures threw <==>
        !IsUnspendable(coin.script) && !possibleOverwrite && o in old(cacheCoins) && !old(cacheCoins)[o].coin.IsSpent()
      ensures Linked()
      ensures Visible() == if threw || IsUnspendable(coin.script) then old(Visible()) else old(Visible())[o := coin]
      ensures Valid() <==> threw || IsUnspendable(coin.script) || possibleOverwrite || o !in old(Visible())
    {
      hide Overlay;
      if IsUnspendable(coin.script) {
        return false;
      }
      var e := if o in cacheCoins then cacheCoins[o] else Entry(NULL_COIN, false, false);
      var unborn := false;
      if !possibleOverwrite {
        if !e.coin.IsSpent() {
          return true;
        }
        unborn := !e.dirty;
      }
      threw := false;
      ghost var cache0, view0 := cacheCoins, Visible();
      OverlayWrite(cache0, BaseView(), o, Entry(coin, true, e.unborn || unborn));
      cacheCoins := cacheCoins[o := Entry(coin, true, e.unborn || unborn)];
      AddedOk(cache0, BaseView(), o, coin, e.unborn || unborn);
      NotVisible(cache0, BaseView(), o);
    }

    /** Spends a coin; the view loses it, whether or not the layers below had it. */
    method SpendCoin(o: OutPoint) returns (found: bool, coin: Coin)
      requires Valid()
      modifies this, below
      ensures Valid() && Below() == old(Below())
      ensures Visible() == old(Visible()) - {o}
      ensures o in old(Visible()) ==> found && coin == old(Visible())[o]
      ensures found && o !in old(Visible()) ==> coin.IsSpent()
    {
      hide Overlay;
      found := FetchCoin(o);
      if !found {
        coin := NULL_COIN;
        assert Visible() - {o} == Visible();
        return;
      }
      coin := cacheCoins[o].coin;
      ghost var cache0 := cacheCoins;
      if cacheCoins[o].unborn {
        OverlayErase(cache0, BaseView(), o);
        assert EntryOk(cache0[o], BaseView(), o);
        cacheCoins := cacheCoins - {o};
      } else {
        OverlayWrite(cache0, BaseView(), o, Entry(NULL_COIN, true, false));
        cacheCoins := cacheCoins[o := Entry(NULL_COIN, true, false)];
      }
    }

    method Uncache(o: OutPoint)
      requires Valid()
      modifies this
      ensures Valid() && Below() == old(Below()) && Visible() == old(Visible())
      ensures cacheCoins == if o in old(cacheCoins) && !old(cacheCoins)[o].dirty
        && !old(cacheCoins)[o].unborn then old(cacheCoins) - {o} else old(cacheCoins)
    {
      hide Overlay;
      if o in cacheCoins && !cacheCoins[o].dirty && !cacheCoins[o].unborn {
        assert EntryOk(cacheCoins[o], BaseView(), o);
        OverlayErase(cacheCoins, BaseView(), o);
        cacheCoins := cacheCoins - {o};
      }
    }

    /** Takes over the dirty entries of a child cache, in any order. Throws exactly when the child
        claims that we have no unspent coin where we cache one; a child with no false claim about
        our view never makes us throw and our view becomes the child's. */
    method BatchWrite(child: CoinsMap) returns (threw: bool)
      requires Valid()
      modifies this
      ensures threw <==> exists o | o in child :: Misapplied(child[o], old(cacheCoins), o)
      ensures Below() == old(Below())
      ensures ClaimsHold(child, old(Visible())) ==> !threw && Valid() && Visible() == Applied(old(Visible()), child)
    {
      hide Applied, Overlay, CacheOk, MergeEntry, With, Split, Same;
      ghost var view0, base, cache0, done := Visible(), BaseView(), cacheCoins, map[];
      ghost var honest := ClaimsHold(child, view0);
      var todo := child;
      AppliedNone(view0);
      SplitStart(child, cache0);
      while |todo| > 0
        invariant Split(child, done, todo) && BaseView() == base
        invariant forall o | o in done :: !Misapplied(done[o], cache0, o)
        invariant Same(cacheCoins, cache0, done)
        invariant honest ==> CacheOk(cacheCoins, base) && Overlay(cacheCoins, base) == Applied(view0, done)
        decreases |todo|
      {
        var o :| o in todo;
        var e := todo[o];
        SplitNext(child, done, todo, o);
        SameAt(cacheCoins, cache0, done, o);
        if e.dirty && e.unborn && o in cacheCoins && !cacheCoins[o].coin.IsSpent() {
          assert Misapplied(child[o], cache0, o);
          if honest { NotVisible(cache0, base, o); }
          return true;
        }
        AppliedNext(view0, done, o, e);
        SameNext(cacheCoins, cache0, done, o, e);
        if e.dirty {
          if honest { MergeStep(cacheCoins, base, o, e); }
          cacheCoins := MergeEntry(cacheCoins, o, e);
        }
        done, todo := done[o := e], todo - {o};
      }
      SplitDone(child, done, todo);
      threw := false;
    }

    /** Pushes all changes down one level; the view stays the same. */
    method Flush() returns (threw: bool)
      requires Valid()
      modifies this, below
      ensures !threw && Valid() && cacheCoins == map[]
      ensures Visible() == old(Visible()) && Below() == old(Below())[|old(Below())| - 1 := old(Visible())]
    {
      hide Overlay, CacheOk, Applied;
      AppliedIsOverlay(cacheCoins, BaseView());
      HonestCache(cacheCoins, BaseView());
      threw := false;
      if parent == null {
        db.BatchWrite(cacheCoins);
      } else {
        threw := parent.BatchWrite(cacheCoins);
      }
      cacheCoins := map[];
      EmptyCache(BaseView());
    }
  }

  /** The child says that the view below has no unspent coin, but the layer caches one. */
  ghost predicate Misapplied(e: Entry, cache: CoinsMap, o: OutPoint)
  {
    e.dirty && e.unborn && o in cache && !cache[o].coin.IsSpent()
  }

  ghost predicate ClaimsHold(child: CoinsMap, view: View)
  {
    forall o | o in child && child[o].dirty && child[o].unborn :: o !in view
  }

  lemma HonestCache(cache: CoinsMap, base: View)
    requires CacheOk(cache, base)
    ensures ClaimsHold(cache, base)
  {
    forall o | o in cache ensures EntryOk(cache[o], base, o) { }
  }

  lemma EmptyCache(base: View)
    ensures Overlay(map[], base) == base && CacheOk(map[], base)
  {
  }

  /** How one dirty child entry is merged into a layer. */
  function MergeEntry(cache: CoinsMap, o: OutPoint, e: Entry): CoinsMap
  {
    if o !in cache then
      if e.unborn && e.coin.IsSpent() then cache else cache[o := Entry(e.coin, true, e.unborn)]
    else if cache[o].unborn && e.coin.IsSpent() then cache - {o}
    else cache[o := Entry(e.coin, true, cache[o].unborn)]
  }

  /** Outside the entries already merged the layer is as before. */
  ghost predicate Same(cache: CoinsMap, cache0: CoinsMap, done: CoinsMap)
  {
    forall o | o !in done :: (o in cache <==> o in cache0) && (o in cache0 ==> cache[o] == cache0[o])
  }

  lemma SplitStart(child: CoinsMap, cache: CoinsMap)
    ensures Split(child, map[], child) && Same(cache, cache, map[])
  {
  }

  lemma SameAt(cache: CoinsMap, cache0: CoinsMap, done: CoinsMap, o: OutPoint)
    requires Same(cache, cache0, done) && o !in done
    ensures (o in cache <==> o in cache0) && (o in cache0 ==> cache[o] == cache0[o])
  {
  }

  lemma SameNext(cache: CoinsMap, cache0: CoinsMap, done: CoinsMap, o: OutPoint, e: Entry)
    requires Same(cache, cache0, done)
    ensures Same(cache, cache0, done[o := e]) && Same(MergeEntry(cache, o, e), cache0, done[o := e])
  {
  }

  lemma MergeStep(cache: CoinsMap, base: View, o: OutPoint, e: Entry)
    requires CacheOk(cache, base) && e.dirty && (e.unborn ==> o !in Overlay(cache, base))
    ensures CacheOk(MergeEntry(cache, o, e), base)
    ensures Overlay(MergeEntry(cache, o, e), base) == With(Overlay(cache, base), o, e.coin)
  {
    hide Overlay;
    NotVisible(cache, base, o);
    if o !in cache && e.unborn && e.coin.IsSpent() {
      assert Overlay(cache, base) - {o} == Overlay(cache, base);
    } else if o in cache && cache[o].unborn && e.coin.IsSpent() {
      OverlayErase(cache, base, o);
    } else {
      OverlayWrite(cache, base, o, Entry(e.coin, true, if o in cache then cache[o].unborn else e.unborn));
    }
  }

  lemma AddedOk(cache: CoinsMap, base: View, o: OutPoint, coin: Coin, unborn: bool)
    requires CacheOk(cache, base)
    ensures CacheOk(cache[o := Entry(coin, true, unborn)], base) <==> (unborn ==> o !in base)
  {
    var cache' := cache[o := Entry(coin, true, unborn)];
    if CacheOk(cache', base) {
      assert EntryOk(cache'[o], base, o);
    }
  }

  lemma NotVisible(cache: CoinsMap, base: View, o: OutPoint)
    requires CacheOk(cache, base)
    ensures o !in cache ==> (o in Overlay(cache, base) <==> o in base)
    ensures o in cache ==> (o in Overlay(cache, base) <==> !cache[o].coin.IsSpent())
    ensures o in cache && !cache[o].dirty && cache[o].coin.IsSpent() ==> o !in base
    ensures o in cache && cache[o].unborn ==> o !in base
  {
    if o in cache {
      assert EntryOk(cache[o], base, o);
    }
  }
}
