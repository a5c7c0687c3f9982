/** The mutable coin caches of src/coins.cpp. */
module CoinsCache {
  import opened CoinMaps
  import opened Options

  const NULL_HASH: nat := 0

  /** The coin database under the lowest cache. `batchFull` tells after how many entries a batch is written. */
  class CoinsDB {
    var coins: CoinMap
    var bestBlock: nat
    var heads: seq<nat>
    const batchFull: nat -> bool

    constructor (coins: CoinMap, bestBlock: nat, batchFull: nat -> bool)
      ensures this.coins == coins && this.bestBlock == bestBlock && heads == [] && this.batchFull == batchFull
    {
      this.coins, this.bestBlock, this.heads, this.batchFull := coins, bestBlock, [], batchFull;
    }

    ghost function Now(): Disk
      reads this
    {
      Disk(coins, bestBlock, heads)
    }

    /** One batch is written as a whole or not at all. */
    method WriteBatch(batch: Entries)
      modifies `coins
      ensures coins == Written(old(coins), batch)
    {
      hide Written;
      var rest := batch;
      ghost var done: Entries := map[];
      WrittenNothing(coins);
      while rest != map[]
        invariant Split(batch, done, rest)
        invariant coins == Written(old(coins), done)
        decreases |rest|
      {
        var o :| o in rest;
        WrittenStep(old(coins), done, o, rest[o]);
        if rest[o].dirty {
          coins := if rest[o].coin.IsSpent() then coins - {o} else coins[o := rest[o].coin];
        }
        done := done[o := rest[o]];
        rest := rest - {o};
      }
      assert done == batch;
    }

    /** Writes the child's entries in whatever order its hash map yields them, in several batches. `commits` are the
        states on disk after each of them. */
    method BatchWrite(mapCoins: Entries, hash: nat) returns (ghost commits: seq<Disk>)
      requires hash != NULL_HASH && Accepts(Now(), hash)
      modifies this
      ensures Now() == Disk(Written(old(coins), mapCoins), hash, [])
      ensures commits != [] && commits[|commits| - 1] == Now()
      ensures forall i | 0 <= i < |commits| - 1 :: Interrupted(old(Now()), mapCoins, hash, commits[i])
    {
      hide Written, Writing, Interrupted, Accepts, OldTip;
      ghost var was := Now();
      var oldTip := if bestBlock == NULL_HASH && |heads| == 2 then heads[1] else bestBlock;
      var rest, batch, count := mapCoins, map[], 0;
      ghost var written: Entries := map[];
      commits := [];
      StartWriting(was, mapCoins);
      while rest != map[]
        invariant Writing(was.coins, mapCoins, rest, written, batch, coins)
        invariant forall i | 0 <= i < |commits| :: Interrupted(was, mapCoins, hash, commits[i])
        decreases |rest|
      {
        var o :| o in rest;
        OneMore(was.coins, mapCoins, rest, written, batch, coins, o);
        if rest[o].dirty {
          batch := batch[o := rest[o]];
        } else {
          written := written[o := rest[o]];
        }
        count := count + 1;
        rest := rest - {o};
        if batchFull(count) {
          BatchDone(was, mapCoins, rest, written, batch, coins, hash);
          WriteBatch(batch);
          bestBlock, heads := NULL_HASH, [hash, oldTip];
          written, batch := written + batch, map[];
          TipIs(was, oldTip);
          commits := commits + [Now()];
        }
      }
      AllDone(was.coins, mapCoins, written, batch, coins);
      WriteBatch(batch);
      bestBlock, heads := hash, [];
      commits := commits + [Now()];
    }

    /** The disk at this moment. */
    lemma TipIs(was: Disk, oldTip: nat)
      requires oldTip == if was.bestBlock == NULL_HASH && |was.heads| == 2 then was.heads[1] else was.bestBlock
      ensures oldTip == OldTip(was)
    {
    }
  }

  /** What was dealt with is on disk or in the batch, and the disk holds no more than that. */
  ghost predicate Writing(was: CoinMap, all: Entries, rest: Entries, written: Entries, batch: Entries, coins: CoinMap) {
    && written.Keys !! batch.Keys && Split(all, written + batch, rest) && coins == Written(was, written)
  }

  lemma StartWriting(was: Disk, all: Entries)
    ensures Writing(was.coins, all, all, map[], map[], was.coins)
  {
    WrittenNothing(was.coins);
    hide Written;
    var none: Entries := map[];
    assert none + none == none;
  }

  lemma OneMore(was: CoinMap, all: Entries, rest: Entries, written: Entries, batch: Entries, coins: CoinMap,
          o: OutPoint)
    requires Writing(was, all, rest, written, batch, coins) && o in rest
    ensures if rest[o].dirty then Writing(was, all, rest - {o}, written, batch[o := rest[o]], coins)
            else Writing(was, all, rest - {o}, written[o := rest[o]], batch, coins)
  {
    hide Written, Split;
    SplitMove(all, written + batch, rest, o);
    if rest[o].dirty {
      assert (written + batch)[o := rest[o]] == written + batch[o := rest[o]];
    } else {
      WrittenClean(was, written, o, rest[o]);
      assert (written + batch)[o := rest[o]] == written[o := rest[o]] + batch;
    }
  }

  lemma SplitMove(all: Entries, done: Entries, rest: Entries, o: OutPoint)
    requires Split(all, done, rest) && o in rest
    ensures o !in done && Split(all, done[o := rest[o]], rest - {o})
  {
  }

  lemma BatchDone(was: Disk, all: Entries, rest: Entries, written: Entries, batch: Entries, coins: CoinMap, hash: nat)
    requires Writing(was.coins, all, rest, written, batch, coins)
    ensures Writing(was.coins, all, rest, written + batch, map[], Written(coins, batch))
    ensures Interrupted(was, all, hash, Disk(Written(coins, batch), NULL_HASH, [hash, OldTip(was)]))
  {
    WrittenMore(was.coins, written, batch);
    hide Written;
    var none: Entries := map[];
    assert written + batch + none == written + batch;
    assert PartOf(written + batch, all);
  }

  lemma AllDone(was: CoinMap, all: Entries, written: Entries, batch: Entries, coins: CoinMap)
    requires Writing(was, all, map[], written, batch, coins)
    ensures Written(coins, batch) == Written(was, all)
  {
    WrittenMore(was, written, batch);
    hide Written;
    assert written + batch == all;
  }

  class CoinsViewCache {
    /** The cache below, or null when the database is directly below. */
    const base: CoinsViewCache?
    const db: CoinsDB
    var cacheCoins: Entries
    var cachedCoinsUsage: int
    var hashBlock: nat

    /** This cache and the ones below it, and how many those are. */
    ghost const caches: set<CoinsViewCache>
    ghost const depth: nat

    ghost predicate Linked()
      ensures Linked() ==> this in caches
      decreases depth
    {
      if base == null then
        caches == {this} && depth == 0
      else
        && depth == base.depth + 1
        && base.db == db
        && this !in base.caches
        && caches == base.caches + {this}
        && base.Linked()
    }

    /** The caches below this one. */
    ghost function BaseLayers(): (ls: seq<Layer>)
      requires Linked()
      reads caches - {this}
      ensures |ls| == depth
      decreases depth, 0
    {
      if base == null then [] else base.Layers()
    }

    /** This cache on top of those below it. */
    ghost function Layers(): (ls: seq<Layer>)
      requires Linked()
      reads caches
      ensures |ls| == depth + 1
      decreases depth, 1
    {
      BaseLayers() + [Layer(cacheCoins, cachedCoinsUsage, hashBlock)]
    }

    ghost predicate Valid()
      reads caches, db
    {
      Linked() && StackSound(db.coins, Layers())
    }

    /** The coins this cache presents. */
    ghost function View(): CoinMap
      requires Linked()
      reads caches, db
    {
      ViewOf(db.coins, Layers())
    }

    ghost function BaseView(): CoinMap
      requires Linked()
      reads caches - {this}, db
    {
      ViewOf(db.coins, BaseLayers())
    }

    /** What the database and every cache up to this one present. */
    ghost function Views(): Views
      requires Linked()
      reads caches, db
    {
      ViewsOf(db.coins, Layers())
    }

    ghost function Books(): (books: seq<(int, nat)>)
      requires Linked()
      reads caches
      ensures |books| == depth + 1
    {
      BooksOf(Layers())
    }

    lemma UnfoldHere()
      requires Linked()
      ensures View() == Overlay(BaseView(), cacheCoins)
      ensures Valid() <==> StackSound(db.coins, BaseLayers()) && Sound(BaseView(), cacheCoins)
      ensures Views() == ViewsOf(db.coins, BaseLayers()) + [View()]
      ensures Books() == BooksOf(BaseLayers()) + [(cachedCoinsUsage - Usage(cacheCoins), hashBlock)]
    {
      Unfold(db.coins, BaseLayers(), Layer(cacheCoins, cachedCoinsUsage, hashBlock));
    }

    constructor (base: CoinsViewCache?, db: CoinsDB)
      requires base != null ==> base.Linked() && base.db == db
      ensures this.base == base && this.db == db
      ensures Linked() && cacheCoins == map[] && cachedCoinsUsage == 0 && hashBlock == NULL_HASH
      ensures caches == (if base == null then {} else base.caches) + {this}
    {
      this.base, this.db := base, db;
      cacheCoins, cachedCoinsUsage, hashBlock := map[], 0, NULL_HASH;
      caches := (if base == null then {} else base.caches) + {this};
      depth := if base == null then 0 else base.depth + 1;
    }

    /** base->GetCoin */
    method GetBaseCoin(o: OutPoint) returns (ok: bool, coin: Coin)
      requires Valid()
      modifies caches - {this}
      ensures Valid() && Views() == old(Views()) && Books() == old(Books())
      ensures BaseView() == old(BaseView())
      ensures ok <==> o in BaseView()
      ensures ok ==> coin == BaseView()[o]
      decreases depth, 0
    {
      UnfoldHere();
      if base == null {
        ok := o in db.coins;
        coin := if ok then db.coins[o] else CLEARED;
      } else {
        ok, coin := base.GetCoin(o);
        UnfoldHere();
      }
    }

    /** Puts a sound entry at `o`, charging its memory and crediting that of the one it replaces. */
    method Store(o: OutPoint, e: Entry)
      requires Valid() && EntrySound(BaseView(), o, e)
      modifies this`cacheCoins, this`cachedCoinsUsage
      ensures cacheCoins == old(cacheCoins)[o := e]
      ensures Valid() && Views() == old(Views())[depth + 1 := Overlay(BaseView(), cacheCoins)]
      ensures Books() == old(Books())
    {
      hide ViewOf, ViewsOf, StackSound, BooksOf, Overlay, Usage;
      UnfoldHere();
      UsageStore(cacheCoins, o, e);
      if o in cacheCoins {
        cachedCoinsUsage := cachedCoinsUsage - cacheCoins[o].coin.DynamicMemoryUsage();
      }
      cacheCoins := cacheCoins[o := e];
      cachedCoinsUsage := cachedCoinsUsage + e.coin.DynamicMemoryUsage();
      assert BaseLayers() == old(BaseLayers());
      UnfoldHere();
    }

    /** Looks `o` up, pulling it out of the caches below if need be. No view changes, nothing is
        lost, and a coin pulled up is stored clean: FRESH is never set here. */
    method FetchCoin(o: OutPoint) returns (found: bool)
      requires Valid()
      modifies caches
      ensures Valid() && Views() == old(Views()) && Books() == old(Books())
      ensures found <==> o in cacheCoins
      ensures o in View() ==> found
      ensures cacheCoins != old(cacheCoins) ==>
        && o !in old(cacheCoins) && o in View()
        && cacheCoins == old(cacheCoins)[o := Entry(View()[o], false, false)]
      decreases depth, 1
    {
      UnfoldHere();
      if o in cacheCoins { return true; }
      var ok, tmp := GetBaseCoin(o);
      UnfoldHere();
      if !ok { return false; }
      ViewUnspent(db.coins, BaseLayers());
      StoreClean(BaseView(), cacheCoins, o);
      Store(o, Entry(tmp, false, tmp.IsSpent()));
      UnfoldHere();
      return true;
    }

    /** The coin this cache presents at `o`, if any. */
    method GetCoin(o: OutPoint) returns (ok: bool, coin: Coin)
      requires Valid()
      modifies caches
      ensures Valid() && Views() == old(Views()) && Books() == old(Books())
      ensures ok <==> o in View()
      ensures ok ==> coin == View()[o]
      decreases depth, 2
    {
      var found := FetchCoin(o);
      UnfoldHere();
      if !found { return false, CLEARED; }
      return !cacheCoins[o].coin.IsSpent(), cacheCoins[o].coin;
    }

    method HaveCoin(o: OutPoint) returns (have: bool)
      requires Valid()
      modifies caches
      ensures Valid() && Views() == old(Views()) && Books() == old(Books())
      ensures have <==> o in View()
    {
      var found := FetchCoin(o);
      UnfoldHere();
      have := found && !cacheCoins[o].coin.IsSpent();
    }

    /** Adds a coin. Without `possibleOverwrite` an entry cached as unspent is refused (the source
        throws), and the caller promises that the view has no such coin: the flags stay meaningful
        exactly when that promise is kept. */
    method AddCoin(o: OutPoint, coin: Coin, possibleOverwrite: bool) returns (ok: bool)
      requires Valid() && !coin.IsSpent()
      modifies this`cacheCoins, this`cachedCoinsUsage
      ensures ok <==> (coin.script.isUnspendable || possibleOverwrite
                       || o !in old(cacheCoins) || old(cacheCoins)[o].coin.IsSpent())
      ensures ok ==> Views() == old(Views())[depth + 1 := PlainAdd(old(View()), o, coin)] && Books() == old(Books())
      ensures ok ==> (Valid() <==> coin.script.isUnspendable || possibleOverwrite || o !in old(View()))
      ensures !ok ==> Valid() && cacheCoins == old(cacheCoins)
      ensures !ok ==> cachedCoinsUsage == old(cachedCoinsUsage) - cacheCoins[o].coin.DynamicMemoryUsage()
    {
      hide ViewOf, ViewsOf, StackSound, BooksOf, Usage, Overlay;
      UnfoldHere();
      if coin.script.isUnspendable { return true; }
      var inserted := o !in cacheCoins;
      var entry := if inserted then Entry(CLEARED, false, false) else cacheCoins[o];
      if !inserted {
        cachedCoinsUsage := cachedCoinsUsage - entry.coin.DynamicMemoryUsage();
      }
      if !possibleOverwrite && !entry.coin.IsSpent() {
        UnfoldHere();
        return false;
      }
      var setFresh := !possibleOverwrite && !entry.dirty;
      var added := Entry(coin, true, entry.isFresh || setFresh);
      UsageStore(cacheCoins, o, added);
      OverlayStore(BaseView(), cacheCoins, o, added);
      OverlayAt(BaseView(), cacheCoins, o);
      cacheCoins := cacheCoins[o := added];
      cachedCoinsUsage := cachedCoinsUsage + coin.DynamicMemoryUsage();
      UnfoldHere();
      return true;
    }

    /** Drops the entry at `o`, crediting its memory. */
    method Erase(o: OutPoint)
      requires Valid() && o in cacheCoins
      modifies this`cacheCoins, this`cachedCoinsUsage
      ensures cacheCoins == old(cacheCoins) - {o}
      ensures Valid() && Views() == old(Views())[depth + 1 := Overlay(BaseView(), cacheCoins)]
      ensures Books() == old(Books())
    {
      hide ViewOf, ViewsOf, StackSound, BooksOf, Overlay, Usage;
      UnfoldHere();
      UsageRemove(cacheCoins, o);
      cachedCoinsUsage := cachedCoinsUsage - cacheCoins[o].coin.DynamicMemoryUsage();
      cacheCoins := cacheCoins - {o};
      UnfoldHere();
    }

    /** Spends a coin: the view loses `o` and nothing else, and what it lost is handed out.
        The result is also true when this cache holds `o` as already spent. */
    method SpendCoin(o: OutPoint) returns (ok: bool, moveout: Coin)
      requires Valid()
      modifies caches
      ensures Valid() && Views() == old(Views())[depth + 1 := old(View()) - {o}] && Books() == old(Books())
      ensures ok <==> o in old(View()) || o in old(cacheCoins)
      ensures if o in old(View()) then moveout == old(View())[o] && !moveout.IsSpent() else moveout.IsSpent()
    {
      hide ViewOf, ViewsOf, StackSound, BooksOf, Overlay, Usage;
      UnfoldHere();
      var found := FetchCoin(o);
      UnfoldHere();
      OverlayAt(BaseView(), cacheCoins, o);
      ViewUnspent(db.coins, Layers());
      if !found {
        assert View() == View() - {o};
        return false, CLEARED;
      }
      moveout := cacheCoins[o].coin;
      OverlayErase(BaseView(), cacheCoins, o);
      OverlayStore(BaseView(), cacheCoins, o, Entry(CLEARED, true, false));
      if cacheCoins[o].isFresh {
        Erase(o);
      } else {
        Store(o, Entry(CLEARED, true, false));
      }
      return true, moveout;
    }

    /** Forgets an entry without flags; no view changes. */
    method Uncache(o: OutPoint)
      requires Valid()
      modifies this`cacheCoins, this`cachedCoinsUsage
      ensures Valid() && Views() == old(Views()) && Books() == old(Books())
      ensures o in cacheCoins ==> cacheCoins[o].dirty || cacheCoins[o].isFresh
    {
      hide ViewOf, ViewsOf, StackSound, BooksOf, Overlay, Usage;
      UnfoldHere();
      if o in cacheCoins && !cacheCoins[o].dirty && !cacheCoins[o].isFresh {
        OverlayErase(BaseView(), cacheCoins, o);
        Erase(o);
      }
    }

    /** One round of the BatchWrite loop: the child's entry `e` at `o` is written to this cache. */
    method WriteEntry(o: OutPoint, e: Entry) returns (ok: bool)
      modifies this`cacheCoins, this`cachedCoinsUsage
      ensures ok <==> !MisappliedEntry(old(Find(cacheCoins, o)), e)
      ensures Find(cacheCoins, o) == if ok then MergeEntry(old(Find(cacheCoins, o)), e) else old(Find(cacheCoins, o))
      ensures cacheCoins - {o} == old(cacheCoins) - {o}
      ensures cachedCoinsUsage - Usage(cacheCoins) == old(cachedCoinsUsage - Usage(cacheCoins))
    {
      hide Usage;
      if !e.dirty { return true; }
      if o !in cacheCoins {
        if !(e.isFresh && e.coin.IsSpent()) {
          UsageStore(cacheCoins, o, Entry(e.coin, true, e.isFresh));
          cacheCoins := cacheCoins[o := Entry(e.coin, true, e.isFresh)];
          cachedCoinsUsage := cachedCoinsUsage + e.coin.DynamicMemoryUsage();
        }
        return true;
      }
      var us := cacheCoins[o];
      if e.isFresh && !us.coin.IsSpent() { return false; }
      cachedCoinsUsage := cachedCoinsUsage - us.coin.DynamicMemoryUsage();
      if us.isFresh && e.coin.IsSpent() {
        UsageRemove(cacheCoins, o);
        cacheCoins := cacheCoins - {o};
      } else {
        UsageStore(cacheCoins, o, Entry(e.coin, true, us.isFresh));
        cacheCoins := cacheCoins[o := Entry(e.coin, true, us.isFresh)];
        cachedCoinsUsage := cachedCoinsUsage + e.coin.DynamicMemoryUsage();
      }
      return true;
    }

    /** Takes over the entries of a child, in whatever order its hash map yields them. It stops
        short (the source throws) exactly when some FRESH flag was misapplied. */
    method BatchWrite(mapCoins: Entries, hash: nat) returns (ok: bool)
      modifies this
      ensures ok <==> NoneMisapplied(old(cacheCoins), mapCoins)
      ensures ok ==> cacheCoins == Merged(old(cacheCoins), mapCoins) && hashBlock == hash
      ensures cachedCoinsUsage - Usage(cacheCoins) == old(cachedCoinsUsage - Usage(cacheCoins))
    {
      hide Usage, Merged, MergeEntry, MisappliedEntry;
      var rest := mapCoins;
      ghost var done: Entries := map[];
      MergedNothing(cacheCoins);
      while rest != map[]
        invariant Split(mapCoins, done, rest)
        invariant cacheCoins == Merged(old(cacheCoins), done)
        invariant NoneMisapplied(old(cacheCoins), done)
        invariant cachedCoinsUsage - Usage(cacheCoins) == old(cachedCoinsUsage - Usage(cacheCoins))
        decreases |rest|
      {
        var o :| o in rest;
        MergedStep(old(cacheCoins), done, o, rest[o]);
        assert Find(cacheCoins, o) == Find(old(cacheCoins), o);
        var wrote := WriteEntry(o, rest[o]);
        if !wrote { return false; }
        done := done[o := rest[o]];
        SameMap(cacheCoins, Merged(old(cacheCoins), done), o);
        rest := rest - {o};
      }
      hashBlock := hash;
      assert done == mapCoins;
      return true;
    }

    /** Pushes this cache into the view below and empties it. The view below then equals what this
        cache presented, this and every other view is unchanged, and nothing is ever thrown. */
    method Flush()
      requires Valid()
      requires base == null ==> hashBlock != NULL_HASH && Accepts(db.Now(), hashBlock)
      modifies this`cacheCoins, this`cachedCoinsUsage, base, db
      ensures Valid() && Views() == old(Views())[depth := old(View())]
      ensures Books() == FlushedBooks(old(Books()))
      ensures cacheCoins == map[]
      ensures if base == null then db.bestBlock == hashBlock && db.heads == [] else db.Now() == old(db.Now())
    {
      if base == null {
        FlushToDB();
      } else {
        FlushToCache();
      }
    }

    method FlushToDB()
      requires Valid() && base == null && hashBlock != NULL_HASH && Accepts(db.Now(), hashBlock)
      modifies this`cacheCoins, this`cachedCoinsUsage, db
      ensures Valid() && Views() == old(Views())[depth := old(View())]
      ensures Books() == FlushedBooks(old(Books()))
      ensures cacheCoins == map[] && db.bestBlock == hashBlock && db.heads == []
    {
      UnfoldHere();
      ViewUnspent(db.coins, Layers());
      WrittenPresentsChild(db.coins, cacheCoins);
      var _ := db.BatchWrite(cacheCoins, hashBlock);
      cacheCoins := map[];
      cachedCoinsUsage := 0;
      UsageNothing();
      UnfoldHere();
      OverlayNothing(BaseView());
    }

    method FlushToCache()
      requires Valid() && base != null
      modifies this`cacheCoins, this`cachedCoinsUsage, base
      ensures Valid() && Views() == old(Views())[depth := old(View())]
      ensures Books() == FlushedBooks(old(Books()))
      ensures cacheCoins == map[]
    {
      hide ViewOf, ViewsOf, StackSound, BooksOf, Overlay, Usage, Merged;
      UnfoldHere();
      base.UnfoldHere();
      MergePresentsChild(base.BaseView(), base.cacheCoins, cacheCoins);
      var ok := base.BatchWrite(cacheCoins, hashBlock);
      assert ok;
      assert base.BaseLayers() == old(base.BaseLayers());
      cacheCoins := map[];
      cachedCoinsUsage := 0;
      UsageNothing();
      base.UnfoldHere();
      UnfoldHere();
      OverlayNothing(BaseView());
    }

    /** The best block of this view; every cache asked on the way remembers the answer. */
    method GetBestBlock() returns (hash: nat)
      requires Linked()
      modifies caches`hashBlock
      ensures hash == BestOf(db.bestBlock, Books()) == old(BestOf(db.bestBlock, Books()))
      ensures Views() == old(Views()) && (old(Valid()) ==> Valid())
      ensures Books() == RememberedBooks(db.bestBlock, old(Books()))
      decreases depth
    {
      hide ViewOf, ViewsOf, StackSound, BooksOf, Overlay, Usage, BestOf, RememberedBooks;
      UnfoldHere();
      ghost var below, drift := Books()[..depth], cachedCoinsUsage - Usage(cacheCoins);
      BestTop(db.bestBlock, below, drift, hashBlock);
      assert Books() == below + [(drift, hashBlock)];
      if hashBlock == NULL_HASH {
        if base == null {
          NoBooks(db.bestBlock);
          hashBlock := db.bestBlock;
        } else {
          BooksBelow();
          hashBlock := base.GetBestBlock();
        }
      }
      UnfoldHere();
      if base != null { BooksBelow(); }
      assert Books() == Books()[..depth] + [(drift, hashBlock)];
      BestTop(db.bestBlock, Books()[..depth], drift, hashBlock);
      hash := hashBlock;
    }

    /** The operations at the cache `down` levels further down, reached through the base pointers. */
    method FetchAt(down: nat, o: OutPoint)
      requires Valid() && down <= depth
      modifies caches
      ensures Valid() && Views() == old(Views()) && Books() == old(Books())
      decreases depth
    {
      if down == 0 {
        var _ := FetchCoin(o);
      } else {
        UnfoldHere();
        base.FetchAt(down - 1, o);
        UnfoldHere();
      }
    }

    method GetAt(down: nat, o: OutPoint) returns (coin: Option<Coin>)
      requires Valid() && down <= depth
      modifies caches
      ensures Valid() && Views() == old(Views()) && Books() == old(Books())
      ensures coin == CoinIn(old(Views())[depth + 1 - down], o)
      decreases depth
    {
      hide ViewOf, ViewsOf, StackSound, BooksOf, Overlay, Usage;
      UnfoldHere();
      if down == 0 {
        var ok, c := GetCoin(o);
        coin := if ok then Some(c) else None;
      } else {
        BooksBelow();
        coin := base.GetAt(down - 1, o);
      }
      UnfoldHere();
    }

    method HaveAt(down: nat, o: OutPoint) returns (have: bool)
      requires Valid() && down <= depth
      modifies caches
      ensures Valid() && Views() == old(Views()) && Books() == old(Books())
      ensures have <==> o in old(Views())[depth + 1 - down]
      decreases depth
    {
      hide ViewOf, ViewsOf, StackSound, BooksOf, Overlay, Usage;
      UnfoldHere();
      if down == 0 {
        have := HaveCoin(o);
      } else {
        BooksBelow();
        have := base.HaveAt(down - 1, o);
      }
      UnfoldHere();
    }

    method UncacheAt(down: nat, o: OutPoint)
      requires Valid() && down <= depth
      modifies caches
      ensures Valid() && Views() == old(Views()) && Books() == old(Books())
      decreases depth
    {
      if down == 0 {
        Uncache(o);
      } else {
        UnfoldHere();
        base.UncacheAt(down - 1, o);
        UnfoldHere();
      }
    }

    method SetBestAt(down: nat, hash: nat)
      requires Valid() && down <= depth
      modifies caches`hashBlock
      ensures Valid() && Views() == old(Views())
      ensures var level := depth - down; Books() == old(Books())[level := (old(Books())[level].0, hash)]
      decreases depth
    {
      hide ViewOf, ViewsOf, StackSound, Overlay, Usage;
      UnfoldHere();
      if down == 0 {
        hashBlock := hash;
      } else {
        BooksBelow();
        base.SetBestAt(down - 1, hash);
      }
      UnfoldHere();
    }

    method BestAt(down: nat) returns (hash: nat)
      requires Valid() && down <= depth
      modifies caches`hashBlock
      ensures Valid() && Views() == old(Views())
      ensures var level, was := depth - down, old(Books());
        && hash == BestOf(db.bestBlock, was[..level + 1])
        && Books() == RememberedBooks(db.bestBlock, was[..level + 1]) + was[level + 1..]
      decreases depth
    {
      hide ViewOf, ViewsOf, StackSound, BooksOf, Overlay, Usage, BestOf, RememberedBooks;
      UnfoldHere();
      if down == 0 {
        assert Books()[..depth + 1] == Books();
        hash := GetBestBlock();
      } else {
        BooksBelow();
        assert Books()[..depth][..depth - down + 1] == Books()[..depth - down + 1];
        ghost var last := Books()[depth];
        hash := base.BestAt(down - 1);
        UnfoldHere();
        BooksBelow();
        assert Books() == Books()[..depth] + [last];
      }
    }

    method FlushHere()
      requires Valid() && db.heads == [] && (depth == 0 ==> Books()[0].1 != NULL_HASH)
      modifies caches, db
      ensures Valid() && Views() == old(Views())[depth := old(Views())[depth + 1]]
      ensures Books() == FlushedAt(old(Books()), depth)
      ensures db.bestBlock == (if depth == 0 then old(Books())[0].1 else old(db.bestBlock)) && db.heads == []
    {
      hide ViewOf, ViewsOf, StackSound, BooksOf, Overlay, Usage, FlushedAt, FlushedBooks;
      UnfoldHere();
      FlushedAtTop(Books());
      assert base != null ==> base in caches;
      Flush();
    }

    method FlushAt(down: nat)
      requires Valid() && down <= depth && db.heads == [] && (down == depth ==> Books()[0].1 != NULL_HASH)
      modifies caches, db
      ensures Valid() && Views() == old(Views())[depth - down := old(Views())[depth - down + 1]]
      ensures Books() == FlushedAt(old(Books()), depth - down)
      ensures db.bestBlock == (if down == depth then old(Books())[0].1 else old(db.bestBlock)) && db.heads == []
      decreases depth
    {
      hide ViewOf, ViewsOf, StackSound, BooksOf, Overlay, Usage, FlushedAt, FlushedBooks;
      if down == 0 {
        FlushHere();
      } else {
        UnfoldHere();
        BooksBelow();
        FlushedAtBelow(Books(), depth - down);
        ghost var last, view := Books()[depth], View();
        base.FlushAt(down - 1);
        UnfoldHere();
        BooksBelow();
        assert Books() == Books()[..depth] + [last];
      }
    }

    /** An empty cache on the database shows what the database holds. */
    lemma EmptyBottom()
      requires Linked() && base == null && cacheCoins == map[] && cachedCoinsUsage == 0 && hashBlock == NULL_HASH
      requires AllUnspent(db.coins)
      ensures Valid() && Views() == [db.coins, db.coins] && Books() == [(0, 0)]
    {
      hide ViewOf, ViewsOf, StackSound, BooksOf, Overlay, Usage, Sound;
      UnfoldHere();
      BottomIs(db.coins);
      NothingSound(db.coins);
      OverlayNothing(db.coins);
      UsageNothing();
    }

    lemma BooksBelow()
      requires Linked() && base != null
      ensures base.Books() == Books()[..depth] && base.Views() == Views()[..depth + 1]
    {
      UnfoldHere();
    }
  }

  /** Adds all outputs of a transaction. With `check`, for a coinbase, or when the view has none of the
      outputs yet, no addition is refused and the view gains exactly the spendable outputs. */
  method AddCoins(cache: CoinsViewCache, txid: nat, outs: seq<Coin>, coinBase: bool, check: bool) returns (ok: bool)
    requires cache.Valid()
    requires forall i | 0 <= i < |outs| :: !outs[i].IsSpent()
    requires check || coinBase || forall i | 0 <= i < |outs| :: OutPoint(txid, i) !in cache.View()
    modifies cache.caches
    ensures ok && cache.Valid()
    ensures cache.Views()
         == old(cache.Views())[cache.depth + 1 := PlainAddOutputs(old(cache.View()), txid, outs, |outs|)]
    ensures cache.Books() == old(cache.Books())
  {
    hide ViewOf, ViewsOf, StackSound, BooksOf, Overlay, Usage;
    ok := true;
    cache.UnfoldHere();
    for i := 0 to |outs|
      invariant ok && cache.Valid() && cache.Books() == old(cache.Books())
      invariant cache.View() == PlainAddOutputs(old(cache.View()), txid, outs, i)
      invariant cache.Views() == old(cache.Views())[cache.depth + 1 := cache.View()]
    {
      var o := OutPoint(txid, i);
      PlainAddOutputsOthers(old(cache.View()), txid, outs, i, o);
      var overwrite := coinBase;
      if check { overwrite := cache.HaveCoin(o); }
      cache.UnfoldHere();
      OverlayAt(cache.BaseView(), cache.cacheCoins, o);
      var added := cache.AddCoin(o, outs[i], overwrite);
      ok := ok && added;
      cache.UnfoldHere();
    }
  }

  /** A stack of caches driven by its users. */
  class CoinsStack {
    var top: CoinsViewCache
    const db: CoinsDB

    constructor (db: CoinsDB)
      requires AllUnspent(db.coins) && db.heads == []
      ensures this.db == db && fresh(top) && fresh(top.caches) && Valid()
      ensures Now() == Plain([db.coins, db.coins], [0], db.bestBlock)
    {
      this.db := db;
      top := new CoinsViewCache(null, db);
      new;
      hide *;
      top.EmptyBottom();
      NowIs([db.coins, db.coins]);
    }

    lemma NowIs(views: Views)
      requires top.Valid() && top.db == db && db.heads == [] && top.Views() == views && top.Books() == [(0, 0)]
      ensures Valid() && Now() == Plain(views, [0], db.bestBlock)
    {
      hide ViewOf, ViewsOf, StackSound, BooksOf;
      assert HashesOf([(0, 0)]) == [0];
    }

    ghost predicate Valid()
      reads this, top, top.caches, top.db, db
    {
      top.Valid() && NoDrift(top.Books()) && top.db == db && db.heads == []
    }

    /** What the stack stands for. */
    ghost function Now(): Plain
      requires Valid()
      reads this, top, top.caches, top.db, db
    {
      Plain(top.Views(), HashesOf(top.Books()), db.bestBlock)
    }

    /** Any sequence of operations the callers may perform leaves the caches presenting exactly what
        plain maps would hold, at every level, gives the same answers on the way, and keeps the memory accounts
        exact. */
    method Run(ops: seq<Op>) returns (answers: seq<Answer>)
      requires Valid() && AllowedRun(Now(), ops)
      modifies this, top.caches, db
      ensures Valid() && fresh(top.caches - old(top.caches))
      ensures Now() == PlainRun(old(Now()), ops) && answers == PlainAnswers(old(Now()), ops)
      decreases |ops|
    {
      answers := [];
      if ops != [] {
        var answer := Step(ops[0]);
        var rest := Run(ops[1..]);
        answers := [answer] + rest;
      }
    }

    method Step(op: Op) returns (answer: Answer)
      requires Valid() && Allowed(Now(), op)
      modifies this, top.caches, db
      ensures Valid() && fresh(top.caches - old(top.caches))
      ensures Now() == PlainStep(old(Now()), op) && answer == PlainAnswer(old(Now()), op)
    {
      hide Valid, Now, Allowed, PlainStep, PlainAnswer, NoDrift, HashesOf;
      if op.Fetch? || op.Get? || op.Have? || op.Uncache? {
        answer := Look(op);
      } else if op.Add? || op.Spend? {
        answer := Change(op);
      } else if op.GetBest? || op.SetBest? {
        answer := Best(op);
      } else {
        Move(op);
        answer := Silent;
      }
    }

    /** Operations that no view shows. */
    method Look(op: Op) returns (answer: Answer)
      requires Valid() && Allowed(Now(), op) && (op.Fetch? || op.Get? || op.Have? || op.Uncache?)
      modifies top.caches
      ensures Valid() && top == old(top)
      ensures Now() == PlainStep(old(Now()), op) && answer == PlainAnswer(old(Now()), op)
    {
      hide ViewOf, ViewsOf, StackSound, BooksOf, Overlay, Usage, NoDrift, HashesOf, CoinIn;
      answer := Silent;
      match op
      case Fetch(down, o) => top.FetchAt(down, o);
      case Get(down, o) =>
        var coin := top.GetAt(down, o);
        answer := TheCoin(coin);
      case Have(down, o) =>
        var have := top.HaveAt(down, o);
        answer := Known(have);
      case Uncache(down, o) => top.UncacheAt(down, o);
    }

    /** Operations that change the view of the top cache. */
    method Change(op: Op) returns (answer: Answer)
      requires Valid() && Allowed(Now(), op) && (op.Add? || op.Spend?)
      modifies top.caches
      ensures Valid() && top == old(top)
      ensures Now() == PlainStep(old(Now()), op) && answer == PlainAnswer(old(Now()), op)
    {
      hide Valid, NoDrift, HashesOf, CoinIn;
      match op
      case Add(o, coin, possibleOverwrite) =>
        AddOnTop(o, coin, possibleOverwrite);
        answer := Silent;
      case Spend(o) =>
        var coin := SpendOnTop(o);
        answer := TheCoin(coin);
    }

    /** Operations on the best block. */
    method Best(op: Op) returns (answer: Answer)
      requires Valid() && Allowed(Now(), op) && (op.GetBest? || op.SetBest?)
      modifies top.caches
      ensures Valid() && top == old(top)
      ensures Now() == PlainStep(old(Now()), op) && answer == PlainAnswer(old(Now()), op)
    {
      hide ViewOf, ViewsOf, StackSound, BooksOf, Overlay, Usage, NoDrift, HashesOf, Remembered, RememberedBooks, BestOf;
      hide BestHash;
      ghost var books := top.Books();
      match op
      case GetBest(down) =>
        BestBooks(db.bestBlock, books, top.depth - down);
        var hash := top.BestAt(down);
        answer := Block(hash);
      case SetBest(down, hash) =>
        SetBooks(books, top.depth - down, hash);
        top.SetBestAt(down, hash);
        answer := Silent;
    }

    /** Operations that move whole views. */
    method Move(op: Op)
      requires Valid() && Allowed(Now(), op) && (op.Flush? || op.Push? || op.Discard?)
      modifies this, top.caches, db
      ensures Valid() && fresh(top.caches - old(top.caches))
      ensures Now() == PlainStep(old(Now()), op) && PlainAnswer(old(Now()), op) == Silent
    {
      hide ViewOf, ViewsOf, StackSound, BooksOf, Overlay, Usage, NoDrift, HashesOf, FlushedAt, FlushedBooks;
      hide FlushedHashes;
      match op
      case Flush(down) =>
        FlushedBooksAt(top.Books(), top.depth - down);
        top.FlushAt(down);
      case Push => PushCache();
      case Discard => DiscardCache();
    }

    method AddOnTop(o: OutPoint, coin: Coin, possibleOverwrite: bool)
      requires Valid() && Allowed(Now(), Add(o, coin, possibleOverwrite))
      modifies top.caches
      ensures Valid() && Now() == PlainStep(old(Now()), Add(o, coin, possibleOverwrite))
    {
      hide ViewOf, ViewsOf, StackSound, BooksOf, Overlay, Usage, NoDrift, HashesOf;
      top.UnfoldHere();
      OverlayAt(top.BaseView(), top.cacheCoins, o);
      var _ := top.AddCoin(o, coin, possibleOverwrite);
    }

    method SpendOnTop(o: OutPoint) returns (coin: Option<Coin>)
      requires Valid()
      modifies top.caches
      ensures Valid() && Now() == old(Now()).(views := old(top.Views())[old(top.depth) + 1 := old(top.View()) - {o}])
      ensures coin == CoinIn(old(top.View()), o)
    {
      hide ViewOf, ViewsOf, StackSound, BooksOf, Overlay, Usage, NoDrift, HashesOf;
      top.UnfoldHere();
      var ok, moveout := top.SpendCoin(o);
      coin := if ok && !moveout.IsSpent() then Some(moveout) else None;
    }

    method DiscardCache()
      requires Valid() && top.depth > 0
      modifies this`top
      ensures top.caches <= old(top.caches)
      ensures Valid() && Now() == PlainStep(old(Now()), Discard)
    {
      top.UnfoldHere();
      top.BooksBelow();
      top := top.base;
    }

    method PushCache()
      requires Valid()
      modifies this`top
      ensures fresh(top.caches - old(top.caches))
      ensures Valid() && Now() == PlainStep(old(Now()), Push)
    {
      hide ViewOf, ViewsOf, StackSound, BooksOf, Overlay, Usage, Sound, HashesOf, NoDrift, Accepts;
      ghost var was := top;
      was.UnfoldHere();
      top := new CoinsViewCache(top, db);
      top.UnfoldHere();
      top.BooksBelow();
      OverlayNothing(top.BaseView());
      UsageNothing();
      NothingSound(top.BaseView());
      assert top.Books() == was.Books() + [(0, 0)];
      assert top.Views() == was.Views() + [was.View()];
      PushedHashes(was.Books());
    }
  }
}
