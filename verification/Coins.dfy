/**
 The layered coin cache of src/coins.cpp: a write-back cache with DIRTY and FRESH flags
 over another cache or over the coin database.

 `CoinMaps` holds the values (coins, entries, the map a cache presents) and the facts about
 them; `CoinsCache` holds the mutable objects, whose methods are proved against those maps.
 */
module CoinMaps {
  import opened Options

  datatype OutPoint = OutPoint(hash: nat, n: nat)

  /** The two attributes of a script the cache looks at, and its identity. */
  datatype Script = Script(id: nat, isUnspendable: bool, memory: nat)

  const EMPTY_SCRIPT := Script(0, false, 0)

  datatype Coin = Coin(value: int, script: Script, coinBase: bool, coinStake: bool, time: nat, height: nat) {
    predicate IsSpent() { value == -1 }
    function DynamicMemoryUsage(): nat { script.memory }
  }

  /** Coin::Clear: the pruned coin. */
  const CLEARED := Coin(-1, EMPTY_SCRIPT, false, false, 0, 0)

  datatype Entry = Entry(coin: Coin, dirty: bool, isFresh: bool)

  type CoinMap = map<OutPoint, Coin>
  type Entries = map<OutPoint, Entry>

  ghost predicate AllUnspent(m: CoinMap) {
    forall o | o in m :: !m[o].IsSpent()
  }

  /** What a cache with these entries presents to its users when its parent presents `parent`. */
  ghost function Overlay(parent: CoinMap, cache: Entries): CoinMap {
    map o | o in parent.Keys + cache.Keys && (o in cache ==> !cache[o].coin.IsSpent())
      :: if o in cache then cache[o].coin else parent[o]
  }

  /** The meaning of the flags: FRESH entries are unknown to the parent and unspent,
      entries that are not DIRTY repeat what the parent says. */
  ghost predicate EntrySound(parent: CoinMap, o: OutPoint, e: Entry) {
    && (e.isFresh ==> o !in parent && !e.coin.IsSpent())
    && (!e.dirty ==> if e.coin.IsSpent() then o !in parent else o in parent && parent[o] == e.coin)
  }

  ghost predicate Sound(parent: CoinMap, cache: Entries) {
    forall o | o in cache :: EntrySound(parent, o, cache[o])
  }

  function Find(m: Entries, o: OutPoint): Option<Entry> {
    if o in m then Some(m[o]) else None
  }

  lemma OverlayAt(parent: CoinMap, cache: Entries, o: OutPoint)
    ensures o in Overlay(parent, cache) <==> if o in cache then !cache[o].coin.IsSpent() else o in parent
    ensures o in Overlay(parent, cache) ==> Overlay(parent, cache)[o] == if o in cache then cache[o].coin else parent[o]
  {
  }

  /** An entry shows as its coin, or as no coin when spent; the other coins are not affected. */
  lemma OverlayStore(parent: CoinMap, cache: Entries, o: OutPoint, e: Entry)
    ensures Overlay(parent, cache[o := e])
         == if e.coin.IsSpent() then Overlay(parent, cache) - {o} else Overlay(parent, cache)[o := e.coin]
    ensures Sound(parent, cache) ==> (Sound(parent, cache[o := e]) <==> EntrySound(parent, o, e))
  {
    if Sound(parent, cache[o := e]) {
      assert EntrySound(parent, o, cache[o := e][o]);
    }
  }

  /** Dropping an entry: a FRESH one takes its coin out of the view, a clean one does not show. */
  lemma OverlayErase(parent: CoinMap, cache: Entries, o: OutPoint)
    requires Sound(parent, cache) && o in cache
    ensures cache[o].isFresh ==> Overlay(parent, cache - {o}) == Overlay(parent, cache) - {o}
    ensures !cache[o].dirty ==> Overlay(parent, cache - {o}) == Overlay(parent, cache)
  {
    assert EntrySound(parent, o, cache[o]);
  }

  lemma NothingSound(parent: CoinMap)
    ensures Sound(parent, map[])
  {
  }

  lemma OverlayNothing(parent: CoinMap)
    ensures Overlay(parent, map[]) == parent
  {
  }

  /** Caching a coin of the parent does not show. */
  lemma StoreClean(parent: CoinMap, cache: Entries, o: OutPoint)
    requires AllUnspent(parent) && Sound(parent, cache)
    requires o in parent && o !in cache
    ensures Overlay(parent, cache[o := Entry(parent[o], false, false)]) == Overlay(parent, cache)
    ensures Sound(parent, cache[o := Entry(parent[o], false, false)])
  {
  }

  /** One round of the BatchWrite loop at one outpoint: our entry, given the child's. */
  function MergeEntry(us: Option<Entry>, child: Entry): Option<Entry> {
    if !child.dirty then us
    else match us
      case None =>
        if child.isFresh && child.coin.IsSpent() then None
        else Some(Entry(child.coin, true, child.isFresh))
      case Some(e) =>
        if e.isFresh && child.coin.IsSpent() then None
        else Some(Entry(child.coin, true, e.isFresh))
  }

  function MergeAt(us: Entries, child: Entries, o: OutPoint): Option<Entry> {
    if o in child then MergeEntry(Find(us, o), child[o]) else Find(us, o)
  }

  /** Our entries after the whole of `child` was written to us. */
  ghost function Merged(us: Entries, child: Entries): Entries {
    map o | o in us.Keys + child.Keys && MergeAt(us, child, o).Some? :: MergeAt(us, child, o).value
  }

  lemma MergedNothing(us: Entries)
    ensures Merged(us, map[]) == us
  {
  }

  /** One more entry of the child changes the result at its own outpoint only. */
  lemma MergedStep(us: Entries, done: Entries, o: OutPoint, e: Entry)
    requires o !in done
    ensures Find(Merged(us, done), o) == Find(us, o)
    ensures Find(Merged(us, done[o := e]), o) == MergeEntry(Find(us, o), e)
    ensures Merged(us, done[o := e]) - {o} == Merged(us, done) - {o}
  {
  }

  lemma SameMap(m: Entries, n: Entries, o: OutPoint)
    requires m - {o} == n - {o} && Find(m, o) == Find(n, o)
    ensures m == n
  {
    forall p
      ensures p in m <==> p in n
      ensures p in m ==> m[p] == n[p]
    {
      if p != o {
        assert p in m <==> p in m - {o};
        assert p in n <==> p in n - {o};
        assert p in m ==> m[p] == (m - {o})[p] && n[p] == (n - {o})[p];
      }
    }
  }

  /** The condition of the "FRESH flag misapplied" exception. */
  predicate MisappliedEntry(us: Option<Entry>, child: Entry) {
    child.dirty && child.isFresh && us.Some? && !us.value.coin.IsSpent()
  }

  ghost predicate NoneMisapplied(us: Entries, child: Entries) {
    forall o | o in child :: !MisappliedEntry(Find(us, o), child[o])
  }

  /** Writing a sound child down a sound cache over `grand` gives the cache the child's view,
      leaves every flag meaningful, and never meets a misapplied FRESH flag. */
  lemma MergePresentsChild(grand: CoinMap, us: Entries, child: Entries)
    requires Sound(grand, us) && Sound(Overlay(grand, us), child)
    ensures Overlay(grand, Merged(us, child)) == Overlay(Overlay(grand, us), child)
    ensures Sound(grand, Merged(us, child))
    ensures NoneMisapplied(us, child)
  {
    var merged, mid := Merged(us, child), Overlay(grand, us);
    forall o
      ensures o in child ==> !MisappliedEntry(Find(us, o), child[o])
      ensures o in Overlay(grand, merged) <==> o in Overlay(mid, child)
      ensures o in Overlay(grand, merged) ==> Overlay(grand, merged)[o] == Overlay(mid, child)[o]
      ensures o in merged ==> EntrySound(grand, o, merged[o])
    {
      MergeEntryPresentsChild(grand, us, child, o);
    }
  }

  lemma MergeEntryPresentsChild(grand: CoinMap, us: Entries, child: Entries, o: OutPoint)
    requires Sound(grand, us) && Sound(Overlay(grand, us), child)
    ensures o in child ==> !MisappliedEntry(Find(us, o), child[o])
    ensures var merged := Merged(us, child);
      && (o in Overlay(grand, merged) <==> o in Overlay(Overlay(grand, us), child))
      && (o in Overlay(grand, merged) ==> Overlay(grand, merged)[o] == Overlay(Overlay(grand, us), child)[o])
      && (o in merged ==> EntrySound(grand, o, merged[o]))
  {
    if o in us { assert EntrySound(grand, o, us[o]); }
    if o in child { assert EntrySound(Overlay(grand, us), o, child[o]); }
  }

  /** A loop over the entries of `all` has dealt with `done` and not yet with `rest`. */
  ghost predicate Split(all: Entries, done: Entries, rest: Entries) {
    && (forall o :: o in all <==> o in done || o in rest)
    && (forall o | o in done :: o !in rest && done[o] == all[o])
    && (forall o | o in rest :: rest[o] == all[o])
  }

  /** CCoinsViewDB::BatchWrite: dirty entries are written or, when spent, erased. */
  ghost function Written(db: CoinMap, child: Entries): CoinMap {
    map o | o in db.Keys + child.Keys && (o in child && child[o].dirty ==> !child[o].coin.IsSpent())
            && (o in child && !child[o].dirty ==> o in db)
      :: if o in child && child[o].dirty then child[o].coin else db[o]
  }

  lemma WrittenNothing(db: CoinMap)
    ensures Written(db, map[]) == db
  {
  }

  lemma WrittenStep(db: CoinMap, done: Entries, o: OutPoint, e: Entry)
    requires o !in done
    ensures Written(db, done[o := e])
         == if !e.dirty then Written(db, done)
            else if e.coin.IsSpent() then Written(db, done) - {o}
            else Written(db, done)[o := e.coin]
  {
  }

  /** Writing in two batches is writing once. */
  lemma WrittenMore(db: CoinMap, done: Entries, batch: Entries)
    requires done.Keys !! batch.Keys
    ensures Written(Written(db, done), batch) == Written(db, done + batch)
  {
  }

  lemma WrittenClean(db: CoinMap, done: Entries, o: OutPoint, e: Entry)
    requires o !in done && !e.dirty
    ensures Written(db, done[o := e]) == Written(db, done)
  {
  }

  // The database on disk

  /** Coins, the best block or null, and the heads, which are set while a write is under way. */
  datatype Disk = Disk(coins: CoinMap, bestBlock: nat, heads: seq<nat>)

  /** The block that the coins were written for last. */
  function OldTip(d: Disk): nat {
    if d.bestBlock == 0 && |d.heads| == 2 then d.heads[1] else d.bestBlock
  }

  /** A write that was interrupted may only be taken up for the same block. */
  predicate Accepts(d: Disk, hash: nat) { d.bestBlock == 0 && |d.heads| == 2 ==> d.heads[0] == hash }

  ghost predicate PartOf(part: Entries, all: Entries) { forall o | o in part :: o in all && part[o] == all[o] }

  /** What is left on disk when a write for block `hash` is cut short: some entries were written, there is no best
      block, and the heads tell from where to where. */
  ghost predicate Interrupted(was: Disk, all: Entries, hash: nat, d: Disk) {
    && d.bestBlock == 0 && d.heads == [hash, OldTip(was)]
    && exists part :: PartOf(part, all) && d.coins == Written(was.coins, part)
  }

  /** After any interruption each coin is as before or as it should become, the heads still say so, and writing
      again completes what was begun. */
  lemma InterruptedRecovers(was: Disk, all: Entries, hash: nat, d: Disk)
    requires Interrupted(was, all, hash, d)
    ensures Accepts(d, hash) && OldTip(d) == OldTip(was)
    ensures Written(d.coins, all) == Written(was.coins, all)
    ensures forall o ::
      CoinIn(d.coins, o) == CoinIn(was.coins, o) || CoinIn(d.coins, o) == CoinIn(Written(was.coins, all), o)
  {
    hide Written;
    var part :| PartOf(part, all) && d.coins == Written(was.coins, part);
    forall o
      ensures CoinIn(Written(d.coins, all), o) == CoinIn(Written(was.coins, all), o)
      ensures CoinIn(d.coins, o) == CoinIn(was.coins, o) || CoinIn(d.coins, o) == CoinIn(Written(was.coins, all), o)
    {
      WrittenAt(was.coins, part, o);
      WrittenAt(was.coins, all, o);
      WrittenAt(d.coins, all, o);
    }
    SameCoins(Written(d.coins, all), Written(was.coins, all));
  }

  lemma WrittenAt(db: CoinMap, child: Entries, o: OutPoint)
    ensures CoinIn(Written(db, child), o)
         == if o !in child || !child[o].dirty then CoinIn(db, o)
            else if child[o].coin.IsSpent() then None else Some(child[o].coin)
  {
  }

  lemma SameCoins(m: CoinMap, n: CoinMap)
    requires forall o :: CoinIn(m, o) == CoinIn(n, o)
    ensures m == n
  {
    forall o
      ensures o in m <==> o in n
      ensures o in m ==> m[o] == n[o]
    {
      assert CoinIn(m, o) == CoinIn(n, o);
    }
  }

  lemma WrittenPresentsChild(db: CoinMap, child: Entries)
    requires Sound(db, child)
    ensures Written(db, child) == Overlay(db, child)
  {
    forall o
      ensures o in Written(db, child) <==> o in Overlay(db, child)
      ensures o in Written(db, child) ==> Written(db, child)[o] == Overlay(db, child)[o]
    {
      if o in child { assert EntrySound(db, o, child[o]); }
    }
  }

  /** cachedCoinsUsage as it should be: the memory of every cached coin. */
  ghost function Usage(m: Entries): nat {
    if m == map[] then 0
    else
      var o :| o in m;
      m[o].coin.DynamicMemoryUsage() + Usage(m - {o})
  }

  lemma UsageNothing()
    ensures Usage(map[]) == 0
  {
  }

  lemma {:induction false} UsageRemove(m: Entries, o: OutPoint)
    requires o in m
    ensures Usage(m) == m[o].coin.DynamicMemoryUsage() + Usage(m - {o})
  {
    var p :| p in m && Usage(m) == m[p].coin.DynamicMemoryUsage() + Usage(m - {p});
    if p != o {
      UsageRemove(m - {p}, o);
      UsageRemove(m - {o}, p);
      assert m - {p} - {o} == m - {o} - {p};
    }
  }

  /** Storing an entry changes the total by the new coin less the one it replaces. */
  lemma UsageStore(m: Entries, o: OutPoint, e: Entry)
    ensures Usage(m[o := e])
         == Usage(m) - (if o in m then m[o].coin.DynamicMemoryUsage() else 0) + e.coin.DynamicMemoryUsage()
  {
    UsageRemove(m[o := e], o);
    assert m[o := e] - {o} == m - {o};
    if o in m {
      UsageRemove(m, o);
    } else {
      assert m - {o} == m;
    }
  }

  /** The state of one cache. */
  datatype Layer = Layer(entries: Entries, usage: int, hash: nat) {
    /** By how much cachedCoinsUsage exceeds the memory of the cached coins. */
    ghost function Drift(): int { usage - Usage(entries) }
  }

  function Below(layers: seq<Layer>): seq<Layer>
    requires layers != []
  {
    layers[..|layers| - 1]
  }

  function Top(layers: seq<Layer>): Layer
    requires layers != []
  {
    layers[|layers| - 1]
  }

  /** What a stack of caches over a database presents. */
  ghost function ViewOf(db: CoinMap, layers: seq<Layer>): CoinMap {
    if layers == [] then db else Overlay(ViewOf(db, Below(layers)), Top(layers).entries)
  }

  /** Every flag of every cache in the stack means what it should. */
  ghost predicate StackSound(db: CoinMap, layers: seq<Layer>) {
    if layers == [] then AllUnspent(db)
    else StackSound(db, Below(layers)) && Sound(ViewOf(db, Below(layers)), Top(layers).entries)
  }

  lemma {:induction false} ViewUnspent(db: CoinMap, layers: seq<Layer>)
    requires StackSound(db, layers)
    ensures AllUnspent(ViewOf(db, layers))
  {
    if layers != [] { ViewUnspent(db, Below(layers)); }
  }

  /** The stack of plain maps that a stack of caches stands for: level 0 is the database. */
  type Views = seq<CoinMap>

  ghost function ViewsOf(db: CoinMap, layers: seq<Layer>): (vs: Views)
    ensures |vs| == |layers| + 1 && vs[|layers|] == ViewOf(db, layers)
  {
    if layers == [] then [db] else ViewsOf(db, Below(layers)) + [ViewOf(db, layers)]
  }

  /** The drift and the block hash of every cache. */
  ghost function BooksOf(layers: seq<Layer>): (books: seq<(int, nat)>)
    ensures |books| == |layers|
  {
    seq(|layers|, i requires 0 <= i < |layers| => (layers[i].Drift(), layers[i].hash))
  }

  /** No cache of the stack misjudges its memory. */
  ghost predicate NoDrift(books: seq<(int, nat)>) {
    forall i | 0 <= i < |books| :: books[i].0 == 0
  }

  /** The books after the top cache was flushed: its hash goes down, its own account is cleared. */
  ghost function FlushedBooks(books: seq<(int, nat)>): seq<(int, nat)>
    requires books != []
  {
    var top := |books| - 1;
    var cleared := books[top := (0, books[top].1)];
    if top == 0 then cleared else cleared[top - 1 := (books[top - 1].0, books[top].1)]
  }

  /** The block a stack of caches claims to be at: a cache with a null hash asks the one below. */
  function BestOf(dbBest: nat, books: seq<(int, nat)>): nat {
    if books == [] then dbBest
    else if books[|books| - 1].1 != 0 then books[|books| - 1].1
    else BestOf(dbBest, books[..|books| - 1])
  }

  /** Flushing a cache whose own hash is null wipes the hash of the cache below: the best block
      survives a flush exactly when that cache had nothing of its own to lose. */
  lemma FlushBest(dbBest: nat, books: seq<(int, nat)>)
    requires |books| >= 2
    ensures var n := |books|;
      BestOf(dbBest, FlushedBooks(books)) == BestOf(dbBest, books) <==>
        (books[n - 1].1 != 0 || books[n - 2].1 == 0 || books[n - 2].1 == BestOf(dbBest, books[..n - 2]))
  {
    var n := |books|;
    var flushed := FlushedBooks(books);
    assert books[..n - 1][..n - 2] == books[..n - 2];
    assert flushed[..n - 1][..n - 2] == books[..n - 2];
  }

  /** How a stack is built up from its top cache. */
  lemma Unfold(db: CoinMap, layers: seq<Layer>, top: Layer)
    ensures var all := layers + [top];
      && Below(all) == layers && Top(all) == top
      && ViewOf(db, all) == Overlay(ViewOf(db, layers), top.entries)
      && ViewsOf(db, all) == ViewsOf(db, layers) + [ViewOf(db, all)]
      && (StackSound(db, all) <==> StackSound(db, layers) && Sound(ViewOf(db, layers), top.entries))
      && BooksOf(all) == BooksOf(layers) + [(top.Drift(), top.hash)]
  {
    assert Below(layers + [top]) == layers;
  }

  /** What AddCoin does to a plain map: unspendable outputs are not kept. */
  function PlainAdd(m: CoinMap, o: OutPoint, coin: Coin): CoinMap {
    if coin.script.isUnspendable then m else m[o := coin]
  }

  /** The coins of a transaction's first `n` outputs added one after the other. */
  function PlainAddOutputs(m: CoinMap, txid: nat, outs: seq<Coin>, n: nat): CoinMap
    requires n <= |outs|
  {
    if n == 0 then m else PlainAdd(PlainAddOutputs(m, txid, outs, n - 1), OutPoint(txid, n - 1), outs[n - 1])
  }

  lemma {:induction false} PlainAddOutputsOthers(m: CoinMap, txid: nat, outs: seq<Coin>, n: nat, o: OutPoint)
    requires n <= |outs|
    requires o.hash != txid || n <= o.n
    ensures o in PlainAddOutputs(m, txid, outs, n) <==> o in m
    ensures o in m ==> PlainAddOutputs(m, txid, outs, n)[o] == m[o]
  {
    if n > 0 { PlainAddOutputsOthers(m, txid, outs, n - 1, o); }
  }

  // Runs

  /** What a stack of caches stands for: a plain map and a block hash for every level, and those of the database. */
  datatype Plain = Plain(views: Views, hashes: seq<nat>, best: nat)

  datatype Op =
    | Fetch(down: nat, o: OutPoint)
    | Get(down: nat, o: OutPoint)
    | Have(down: nat, o: OutPoint)
    | Uncache(down: nat, o: OutPoint)
    | Add(o: OutPoint, coin: Coin, possibleOverwrite: bool)
    | Spend(o: OutPoint)
    | GetBest(down: nat)
    | SetBest(down: nat, hash: nat)
    | Flush(down: nat)
    | Push
    | Discard

  datatype Answer = Silent | TheCoin(coin: Option<Coin>) | Known(have: bool) | Block(hash: nat)

  /** The block of the level with the last of these hashes: a null hash asks the level below. */
  function BestHash(best: nat, hashes: seq<nat>): nat {
    if hashes == [] then best
    else if hashes[|hashes| - 1] != 0 then hashes[|hashes| - 1]
    else BestHash(best, hashes[..|hashes| - 1])
  }

  /** Every level that is asked remembers the answer. */
  function Remembered(best: nat, hashes: seq<nat>): (r: seq<nat>)
    ensures |r| == |hashes|
  {
    if hashes == [] then []
    else if hashes[|hashes| - 1] != 0 then hashes
    else Remembered(best, hashes[..|hashes| - 1]) + [BestHash(best, hashes)]
  }

  /** An operation the callers may perform; `down` counts caches from the top. Adding without
      `possibleOverwrite` promises that the view holds no such coin, and what goes to the database has a block. */
  predicate Allowed(p: Plain, op: Op) {
    && |p.views| == |p.hashes| + 1 && |p.hashes| > 0
    && match op
       case Fetch(down, _) => down < |p.hashes|
       case Get(down, _) => down < |p.hashes|
       case Have(down, _) => down < |p.hashes|
       case Uncache(down, _) => down < |p.hashes|
       case Add(o, coin, possibleOverwrite) =>
         !coin.IsSpent() && (possibleOverwrite || coin.script.isUnspendable || o !in p.views[|p.hashes|])
       case Spend(_) => true
       case GetBest(down) => down < |p.hashes|
       case SetBest(down, _) => down < |p.hashes|
       case Flush(down) => down < |p.hashes| && (down + 1 == |p.hashes| ==> p.hashes[0] != 0)
       case Push => true
       case Discard => |p.hashes| > 1
  }

  /** The hash of the level goes down with its coins. */
  function FlushedHashes(hashes: seq<nat>, level: nat): seq<nat>
    requires level < |hashes|
  {
    if level == 0 then hashes else hashes[level - 1 := hashes[level]]
  }

  /** The same operation on plain maps, with no cache of coins anywhere. */
  function PlainStep(p: Plain, op: Op): Plain
    requires Allowed(p, op)
  {
    var top := |p.hashes|;
    match op
    case Add(o, coin, _) => p.(views := p.views[top := PlainAdd(p.views[top], o, coin)])
    case Spend(o) => p.(views := p.views[top := p.views[top] - {o}])
    case GetBest(down) => p.(hashes := Remembered(p.best, p.hashes[..top - down]) + p.hashes[top - down..])
    case SetBest(down, hash) => p.(hashes := p.hashes[top - 1 - down := hash])
    case Flush(down) =>
      Plain(p.views[top - 1 - down := p.views[top - down]], FlushedHashes(p.hashes, top - 1 - down),
            if down + 1 == top then p.hashes[0] else p.best)
    case Push => Plain(p.views + [p.views[top]], p.hashes + [0], p.best)
    case Discard => Plain(p.views[..top], p.hashes[..top - 1], p.best)
    case _ => p
  }

  function CoinIn(m: CoinMap, o: OutPoint): Option<Coin> { if o in m then Some(m[o]) else None }

  function PlainAnswer(p: Plain, op: Op): Answer
    requires Allowed(p, op)
  {
    var top := |p.hashes|;
    match op
    case Get(down, o) => TheCoin(CoinIn(p.views[top - down], o))
    case Have(down, o) => Known(o in p.views[top - down])
    case Spend(o) => TheCoin(CoinIn(p.views[top], o))
    case GetBest(down) => Block(BestHash(p.best, p.hashes[..top - down]))
    case _ => Silent
  }

  predicate AllowedRun(p: Plain, ops: seq<Op>)
    decreases |ops|
  {
    ops != [] ==> Allowed(p, ops[0]) && AllowedRun(PlainStep(p, ops[0]), ops[1..])
  }

  function PlainRun(p: Plain, ops: seq<Op>): Plain
    requires AllowedRun(p, ops)
    decreases |ops|
  {
    if ops == [] then p else PlainRun(PlainStep(p, ops[0]), ops[1..])
  }

  function PlainAnswers(p: Plain, ops: seq<Op>): seq<Answer>
    requires AllowedRun(p, ops)
    decreases |ops|
  {
    if ops == [] then [] else [PlainAnswer(p, ops[0])] + PlainAnswers(PlainStep(p, ops[0]), ops[1..])
  }

  // The books in terms of hashes

  ghost function HashesOf(books: seq<(int, nat)>): (hs: seq<nat>)
    ensures |hs| == |books|
  {
    seq(|books|, i requires 0 <= i < |books| => books[i].1)
  }

  lemma {:induction false} BestOfHashes(best: nat, books: seq<(int, nat)>)
    ensures BestOf(best, books) == BestHash(best, HashesOf(books))
  {
    if books != [] {
      var below := books[..|books| - 1];
      BestOfHashes(best, below);
      assert HashesOf(below) == HashesOf(books)[..|books| - 1];
    }
  }

  /** The books after every cache that was asked remembered the answer. */
  ghost function RememberedBooks(best: nat, books: seq<(int, nat)>): (r: seq<(int, nat)>)
    ensures |r| == |books|
  {
    if books == [] then []
    else
      var last := |books| - 1;
      if books[last].1 != 0 then books
      else RememberedBooks(best, books[..last]) + [(books[last].0, BestOf(best, books))]
  }

  /** The books after the cache at a level was flushed. */
  ghost function FlushedAt(books: seq<(int, nat)>, level: nat): seq<(int, nat)>
    requires level < |books|
  {
    FlushedBooks(books[..level + 1]) + books[level + 1..]
  }

  lemma {:induction false} RememberedHashes(best: nat, books: seq<(int, nat)>)
    ensures HashesOf(RememberedBooks(best, books)) == Remembered(best, HashesOf(books))
    ensures NoDrift(books) ==> NoDrift(RememberedBooks(best, books))
  {
    BestOfHashes(best, books);
    if books != [] {
      var below := books[..|books| - 1];
      RememberedHashes(best, below);
      assert HashesOf(below) == HashesOf(books)[..|books| - 1];
    }
  }

  lemma BestBooks(best: nat, books: seq<(int, nat)>, level: nat)
    requires level < |books|
    ensures BestOf(best, books[..level + 1]) == BestHash(best, HashesOf(books)[..level + 1])
    ensures var r := RememberedBooks(best, books[..level + 1]) + books[level + 1..];
      && HashesOf(r) == Remembered(best, HashesOf(books)[..level + 1]) + HashesOf(books)[level + 1..]
      && (NoDrift(books) ==> NoDrift(r))
  {
    var part := books[..level + 1];
    BestOfHashes(best, part);
    RememberedHashes(best, part);
    assert HashesOf(part) == HashesOf(books)[..level + 1];
    assert NoDrift(books) ==> NoDrift(part);
    hide RememberedBooks, Remembered, BestOf, BestHash;
    var r := RememberedBooks(best, part) + books[level + 1..];
    assert HashesOf(r) == HashesOf(RememberedBooks(best, part)) + HashesOf(books)[level + 1..];
  }

  lemma SetBooks(books: seq<(int, nat)>, level: nat, hash: nat)
    requires level < |books|
    ensures var r := books[level := (books[level].0, hash)];
      HashesOf(r) == HashesOf(books)[level := hash] && (NoDrift(books) ==> NoDrift(r))
  {
  }

  lemma FlushedBooksAt(books: seq<(int, nat)>, level: nat)
    requires level < |books|
    ensures HashesOf(FlushedAt(books, level)) == FlushedHashes(HashesOf(books), level)
    ensures HashesOf(books)[0] == books[0].1
    ensures NoDrift(books) ==> NoDrift(FlushedAt(books, level))
  {
  }

  lemma BestTop(best: nat, below: seq<(int, nat)>, drift: int, hash: nat)
    ensures BestOf(best, below + [(drift, hash)]) == if hash != 0 then hash else BestOf(best, below)
    ensures RememberedBooks(best, below + [(drift, hash)])
         == if hash != 0 then below + [(drift, hash)] else RememberedBooks(best, below) + [(drift, BestOf(best, below))]
  {
    assert (below + [(drift, hash)])[..|below|] == below;
  }

  lemma PushedHashes(books: seq<(int, nat)>)
    ensures HashesOf(books + [(0, 0)]) == HashesOf(books) + [0]
    ensures NoDrift(books) ==> NoDrift(books + [(0, 0)])
  {
  }

  lemma BottomIs(db: CoinMap)
    requires AllUnspent(db)
    ensures ViewOf(db, []) == db && ViewsOf(db, []) == [db] && StackSound(db, []) && BooksOf([]) == []
  {
  }

  lemma NoBooks(best: nat)
    ensures BestOf(best, []) == best && RememberedBooks(best, []) == []
  {
  }

  lemma FlushedAtTop(books: seq<(int, nat)>)
    requires books != []
    ensures FlushedAt(books, |books| - 1) == FlushedBooks(books)
  {
    assert books[..|books|] == books;
  }

  lemma FlushedAtBelow(books: seq<(int, nat)>, level: nat)
    requires level + 1 < |books|
    ensures FlushedAt(books, level) == FlushedAt(books[..|books| - 1], level) + [books[|books| - 1]]
  {
    var below := books[..|books| - 1];
    assert below[..level + 1] == books[..level + 1];
    assert below[level + 1..] + [books[|books| - 1]] == books[level + 1..];
  }
}
