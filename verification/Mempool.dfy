/**
 The memory pool as block assembly sees it, and the bookkeeping of src/miner.cpp over it:
 every transaction with its ancestors, the cached package sums, and what they should be once
 part of a package is in the block.
 */
module Mempool {
  /** Transactions are named by their hash, which also breaks ties. */
  type TxId = nat

  datatype Tx = Tx(size: int, weight: int, sigOps: int, fee: int, modFee: int)

  const NO_TX := Tx(1, 0, 0, 0, 0)

  // Sums over sets of transactions

  ghost function Sum(f: TxId -> int, s: set<TxId>): int {
    if s == {} then 0
    else
      var t :| t in s;
      f(t) + Sum(f, s - {t})
  }

  lemma SumNothing(f: TxId -> int)
    ensures Sum(f, {}) == 0
  {
  }

  lemma {:induction false} SumRemove(f: TxId -> int, s: set<TxId>, t: TxId)
    requires t in s
    ensures Sum(f, s) == f(t) + Sum(f, s - {t})
  {
    var u :| u in s && Sum(f, s) == f(u) + Sum(f, s - {u});
    if u != t {
      SumRemove(f, s - {u}, t);
      SumRemove(f, s - {t}, u);
      assert s - {u} - {t} == s - {t} - {u};
    }
  }

  lemma SumAdd(f: TxId -> int, s: set<TxId>, t: TxId)
    requires t !in s
    ensures Sum(f, s + {t}) == f(t) + Sum(f, s)
  {
    SumRemove(f, s + {t}, t);
    assert s + {t} - {t} == s;
  }

  lemma {:induction false} SumUnion(f: TxId -> int, s: set<TxId>, r: set<TxId>)
    requires s !! r
    ensures Sum(f, s + r) == Sum(f, s) + Sum(f, r)
  {
    if r == {} {
      assert s + r == s;
    } else {
      var t :| t in r;
      SumUnion(f, s, r - {t});
      SumRemove(f, r, t);
      SumRemove(f, s + r, t);
      assert s + r - {t} == s + (r - {t});
    }
  }

  /** A sum over part of a set is at most the sum over all of it, when nothing is negative. */
  lemma {:induction false} SumPart(f: TxId -> int, s: set<TxId>, r: set<TxId>)
    requires s <= r && forall t | t in r :: f(t) >= 0
    ensures 0 <= Sum(f, s) <= Sum(f, r)
    decreases |r|
  {
    if r != {} {
      var t :| t in r;
      SumPart(f, s - {t}, r - {t});
      SumRemove(f, r, t);
      if t in s { SumRemove(f, s, t); } else { assert s - {t} == s; }
    }
  }

  lemma {:induction false} SumFourfold(f: TxId -> int, g: TxId -> int, s: set<TxId>)
    requires forall t | t in s :: f(t) <= 4 * g(t)
    ensures Sum(f, s) <= 4 * Sum(g, s)
  {
    if s != {} {
      var t :| t in s;
      SumFourfold(f, g, s - {t});
      SumRemove(f, s, t);
      SumRemove(g, s, t);
    }
  }

  /** The transactions, the strict ancestors of each, the cached figures of each package, and the
      index sorted by ancestor score. */
  datatype Pool = Pool(
    txs: map<TxId, Tx>, ancestors: map<TxId, set<TxId>>, cached: map<TxId, ModEntry>, byScore: seq<TxId>) {
    /** The ancestor sets are those of a directed acyclic graph. */
    ghost predicate Acyclic() {
      && ancestors.Keys == txs.Keys
      && (forall t | t in txs :: t !in ancestors[t] && ancestors[t] <= txs.Keys)
      && (forall t, a | t in txs && a in ancestors[t] :: ancestors[a] <= ancestors[t])
    }

    ghost predicate Figured() {
      && cached.Keys == txs.Keys
      && (forall t | t in txs :: cached[t] == Whole(t))
      && (forall t | t in txs :: txs[t].size > 0 && txs[t].sigOps >= 0 && 0 <= txs[t].weight <= 4 * txs[t].size)
    }

    ghost predicate Indexed() {
      && (forall t :: t in byScore <==> t in txs)
      && (forall i, j | 0 <= i < j < |byScore| :: !Better(Whole(byScore[j]), Whole(byScore[i])))
    }

    ghost predicate Valid() { Acyclic() && Figured() && Indexed() }

    function At(t: TxId): Tx { if t in txs then txs[t] else NO_TX }
    function Ancestors(t: TxId): set<TxId> { if t in ancestors then ancestors[t] else {} }

    // The figures as functions on transactions
    function Size(): TxId -> int { (t: TxId) => At(t).size }
    function Weight(): TxId -> int { (t: TxId) => At(t).weight }
    function SigOps(): TxId -> int { (t: TxId) => At(t).sigOps }
    function Fee(): TxId -> int { (t: TxId) => At(t).fee }
    function ModFee(): TxId -> int { (t: TxId) => At(t).modFee }
    function Delta(): TxId -> int { (t: TxId) => At(t).modFee - At(t).fee }

    function Package(t: TxId): set<TxId> { Ancestors(t) + {t} }

    /** What is left of the package of `t` when `block` is already in the block. */
    function Remaining(t: TxId, block: set<TxId>): set<TxId> { Package(t) - block }

    ghost predicate Closed(block: set<TxId>) {
      block <= txs.Keys && forall t | t in block :: Ancestors(t) <= block
    }

    /** The figures of the whole package of a transaction. */
    ghost function Whole(t: TxId): ModEntry {
      ModEntry(t, Sum(Size(), Package(t)), Sum(ModFee(), Package(t)), Sum(SigOps(), Package(t)))
    }
  }

  /** CTxMemPoolModifiedEntry: the figures of a package, corrected for ancestors in the block. */
  datatype ModEntry = ModEntry(tx: TxId, size: int, fees: int, sigOps: int)

  /** CompareModifiedEntry: the higher fee rate first, then the lower hash. */
  predicate Better(a: ModEntry, b: ModEntry) {
    var f1, f2 := a.fees * b.size, b.fees * a.size;
    if f1 == f2 then a.tx < b.tx else f1 > f2
  }

  lemma NotBetterThanSelf(a: ModEntry)
    ensures !Better(a, a)
  {
  }

  lemma BetterAsymmetric(a: ModEntry, b: ModEntry)
    requires Better(a, b)
    ensures !Better(b, a)
  {
  }

  lemma BetterTransitive(a: ModEntry, b: ModEntry, c: ModEntry)
    requires a.size > 0 && b.size > 0 && c.size > 0
    requires !Better(b, a) && !Better(c, b)
    ensures !Better(c, a)
  {
    // a is at least as good as b, and b as c: compare all three over a common denominator
    var ab, ba := a.fees * b.size, b.fees * a.size;
    var bc, cb := b.fees * c.size, c.fees * b.size;
    var ac, ca := a.fees * c.size, c.fees * a.size;
    assert ab * c.size == ac * b.size && ba * c.size == bc * a.size && cb * a.size == ca * b.size by {
      Commute(a.fees, b.size, c.size);
      Commute(b.fees, a.size, c.size);
      Commute(c.fees, b.size, a.size);
    }
    Scale(ba, ab, c.size);
    Scale(cb, bc, a.size);
    Unscale(ca, ac, b.size);
  }

  lemma Commute(x: int, y: int, z: int)
    ensures x * y * z == x * z * y
  {
  }

  lemma Scale(x: int, y: int, k: int)
    requires x <= y && k > 0
    ensures x * k <= y * k && (x < y ==> x * k < y * k)
  {
  }

  lemma Unscale(x: int, y: int, k: int)
    requires k > 0
    ensures (x * k <= y * k ==> x <= y) && (x * k < y * k ==> x < y)
  {
    if x > y { Scale(y, x, k); }
    if x >= y { Scale(y, x, k); }
  }

  // Corrected figures

  type ModMap = map<TxId, ModEntry>

  /** How an entry came about: the ancestor it was first corrected for, and the ancestors that were in the
      block before that, which are never subtracted. */
  datatype Made = Made(first: TxId, missed: set<TxId>)

  type MadeMap = map<TxId, Made>

  /** The figures of `e` cover at least what is left of its package. */
  ghost predicate Over(pool: Pool, block: set<TxId>, e: ModEntry) {
    && e.size >= Sum(pool.Size(), pool.Remaining(e.tx, block))
    && e.sigOps >= Sum(pool.SigOps(), pool.Remaining(e.tx, block))
  }

  /** What the figures of `t` count: the rest of its package, and what was missed. */
  ghost function Counted(pool: Pool, block: set<TxId>, t: TxId, m: Made): set<TxId> {
    pool.Remaining(t, block) + m.missed
  }

  /** The ancestors of `t` that were subtracted after the first one, with their plain fees. */
  ghost function Later(pool: Pool, block: set<TxId>, t: TxId, m: Made): set<TxId> {
    pool.Ancestors(t) * block - m.missed - {m.first}
  }

  /** The figures of `e` in terms of the pool, the block and how the entry came about. */
  ghost predicate Law(pool: Pool, block: set<TxId>, e: ModEntry, m: Made) {
    && m.first in pool.Ancestors(e.tx) * block && m.missed <= pool.Ancestors(e.tx) * block - {m.first}
    && e.size == Sum(pool.Size(), Counted(pool, block, e.tx, m))
    && e.sigOps == Sum(pool.SigOps(), Counted(pool, block, e.tx, m))
    && e.fees == Sum(pool.ModFee(), Counted(pool, block, e.tx, m)) + Sum(pool.Delta(), Later(pool, block, e.tx, m))
  }

  /** The modified set agrees with the block at `t`: it holds nothing that is in the block; its figures
      obey the law, with nothing missed if `t` never failed; and if `t` is outside it, outside the block,
      outside `skip` and never failed, then no ancestor of `t` is in the block. */
  ghost predicate TrackedAt(pool: Pool, block: set<TxId>, skip: set<TxId>, mod: ModMap, made: MadeMap,
          failed: set<TxId>, t: TxId) {
    if t in mod then
      && t !in block && t !in skip && mod[t].tx == t && t in made
      && Law(pool, block, mod[t], made[t]) && (t !in failed ==> made[t].missed == {})
    else
      t in failed || t in block || t in skip || pool.Ancestors(t) !! block
  }

  ghost predicate Tracked(pool: Pool, block: set<TxId>, skip: set<TxId>, mod: ModMap, made: MadeMap,
          failed: set<TxId>) {
    mod.Keys <= pool.txs.Keys && forall t | t in pool.txs :: TrackedAt(pool, block, skip, mod, made, failed, t)
  }

  /** The entry of `t` once its ancestor `it` went into the block: a first correction starts from the
      figures of the pool and takes off the modified fee, a later one takes off the plain fee. */
  function Corrected(pool: Pool, mod: ModMap, t: TxId, it: TxId): ModEntry
    requires t in mod || t in pool.cached
  {
    var parent := pool.At(it);
    if t in mod then ModEntry(t, mod[t].size - parent.size, mod[t].fees - parent.fee, mod[t].sigOps - parent.sigOps)
    else
      var whole := pool.cached[t];
      ModEntry(t, whole.size - parent.size, whole.fees - parent.modFee, whole.sigOps - parent.sigOps)
  }

  lemma LawIsOver(pool: Pool, block: set<TxId>, e: ModEntry, m: Made)
    requires pool.Valid() && e.tx in pool.txs && Law(pool, block, e, m)
    ensures Over(pool, block, e)
  {
    hide Pool.Valid, Sum;
    PackageFacts(pool, e.tx);
    SumPart(pool.Size(), pool.Remaining(e.tx, block), Counted(pool, block, e.tx, m));
    SumPart(pool.SigOps(), pool.Remaining(e.tx, block), Counted(pool, block, e.tx, m));
  }

  /** A later correction keeps the law. */
  lemma CorrectAgain(pool: Pool, block: set<TxId>, mod: ModMap, t: TxId, it: TxId, m: Made)
    requires t in mod && mod[t].tx == t && it in pool.Ancestors(t) && it !in block
    requires Law(pool, block, mod[t], m)
    ensures Law(pool, block + {it}, Corrected(pool, mod, t, it), m)
  {
    hide Sum;
    var counted := Counted(pool, block, t, m);
    assert counted - {it} == Counted(pool, block + {it}, t, m);
    SumRemove(pool.Size(), counted, it);
    SumRemove(pool.SigOps(), counted, it);
    SumRemove(pool.ModFee(), counted, it);
    SumAdd(pool.Delta(), Later(pool, block, t, m), it);
    assert Later(pool, block, t, m) + {it} == Later(pool, block + {it}, t, m);
  }

  lemma PoolKeys(pool: Pool)
    requires pool.Valid()
    ensures pool.cached.Keys == pool.ancestors.Keys == pool.txs.Keys
    ensures forall i | 0 <= i < |pool.byScore| :: pool.byScore[i] in pool.txs
  {
  }

  lemma PackageFacts(pool: Pool, t: TxId)
    requires pool.Valid() && t in pool.txs
    ensures t in pool.cached && pool.cached[t] == pool.Whole(t)
    ensures pool.Package(t) <= pool.txs.Keys && t !in pool.Ancestors(t)
    ensures forall u | u in pool.Package(t) ::
      pool.Size()(u) > 0 && pool.SigOps()(u) >= 0 && 0 <= pool.Weight()(u) <= 4 * pool.Size()(u)
  {
  }

  /** A first correction establishes the law: it misses every ancestor that is in the block already. */
  lemma CorrectFirst(pool: Pool, block: set<TxId>, mod: ModMap, t: TxId, it: TxId)
    requires pool.Valid() && t in pool.txs && t !in mod && it in pool.Ancestors(t) && it !in block && t !in block
    ensures t in pool.cached
    ensures Law(pool, block + {it}, Corrected(pool, mod, t, it), Made(it, pool.Ancestors(t) * block))
  {
    hide Pool.Valid, Sum;
    PackageFacts(pool, t);
    var all, m := pool.Package(t), Made(it, pool.Ancestors(t) * block);
    SumRemove(pool.Size(), all, it);
    SumRemove(pool.SigOps(), all, it);
    SumRemove(pool.ModFee(), all, it);
    assert Counted(pool, block + {it}, t, m) == all - {it};
    assert Later(pool, block + {it}, t, m) == {};
    SumNothing(pool.Delta());
  }

  /** The modified set once the entries at `among` were corrected for `it`. */
  ghost function CorrectedMap(pool: Pool, mod: ModMap, among: set<TxId>, it: TxId): ModMap
    requires among <= pool.cached.Keys
  {
    map t | t in mod.Keys + among :: if t in among then Corrected(pool, mod, t, it) else mod[t]
  }

  /** How the entries came about, after that. */
  ghost function MadeAfter(pool: Pool, block: set<TxId>, mod: ModMap, made: MadeMap, among: set<TxId>,
          it: TxId): MadeMap {
    made + map t | t in among - mod.Keys :: Made(it, pool.Ancestors(t) * block)
  }

  lemma CorrectedNone(pool: Pool, mod: ModMap, it: TxId)
    ensures CorrectedMap(pool, mod, {}, it) == mod
  {
  }

  lemma CorrectedKeys(pool: Pool, mod: ModMap, among: set<TxId>, it: TxId)
    requires among <= pool.cached.Keys
    ensures CorrectedMap(pool, mod, among, it).Keys == mod.Keys + among
  {
  }

  lemma CorrectedOnce(pool: Pool, mod: ModMap, among: set<TxId>, it: TxId, d: TxId)
    requires among <= pool.cached.Keys && d in pool.cached && d !in among
    ensures var before := CorrectedMap(pool, mod, among, it);
      CorrectedMap(pool, mod, among + {d}, it) == before[d := Corrected(pool, before, d, it)]
  {
  }

  /** One entry, corrected if `it` is an ancestor, obeys the law. */
  lemma CorrectionKeepsEntry(pool: Pool, block: set<TxId>, mod: ModMap, it: TxId, t: TxId, m: Made)
    requires pool.Valid() && t in pool.txs && t !in block && it !in block && t != it
    requires if t in mod then mod[t].tx == t && Law(pool, block, mod[t], m)
             else it in pool.Ancestors(t) && m == Made(it, pool.Ancestors(t) * block)
    ensures t in mod || t in pool.cached
    ensures var e := if it in pool.Ancestors(t) then Corrected(pool, mod, t, it) else mod[t];
      e.tx == t && Law(pool, block + {it}, e, m)
  {
    hide Pool.Valid, Law;
    if it !in pool.Ancestors(t) {
      Unaffected(pool, block, mod[t], it, m);
    } else if t in mod {
      CorrectAgain(pool, block, mod, t, it, m);
    } else {
      CorrectFirst(pool, block, mod, t, it);
    }
  }

  /** Including one transaction of a package, once the others in `done` are accounted for, keeps the
      modified set in agreement with the block. `prior` is the block before the package, and `among`
      are the descendants of `it` outside the package. */
  lemma CorrectionKeepsTracked(pool: Pool, prior: set<TxId>, done: set<TxId>, added: set<TxId>, among: set<TxId>,
                               mod: ModMap, made: MadeMap, failed: set<TxId>, it: TxId)
    requires pool.Valid() && pool.Closed(prior) && among <= pool.cached.Keys
    requires forall t :: t in among <==> t in pool.txs && it in pool.Ancestors(t) && t !in added
    requires added !! prior && done <= added && it in added && it !in done
    requires Tracked(pool, prior + done, added, mod, made, failed)
    ensures Tracked(pool, prior + done + {it}, added, CorrectedMap(pool, mod, among, it),
                    MadeAfter(pool, prior + done, mod, made, among, it), failed)
  {
    hide TrackedAt, MadeAfter;
    forall t | t in pool.txs
      ensures TrackedAt(pool, prior + done + {it}, added, CorrectedMap(pool, mod, among, it),
                        MadeAfter(pool, prior + done, mod, made, among, it), failed, t)
    {
      CorrectionKeepsTrackedAt(pool, prior, prior + done, added, among, mod, made, failed, it, t);
    }
  }

  lemma CorrectionKeepsTrackedAt(pool: Pool, prior: set<TxId>, block: set<TxId>, added: set<TxId>, among: set<TxId>,
                                 mod: ModMap, made: MadeMap, failed: set<TxId>, it: TxId, t: TxId)
    requires pool.Valid() && pool.Closed(prior) && among <= pool.cached.Keys && t in pool.txs
    requires t in among <==> it in pool.Ancestors(t) && t !in added
    requires prior <= block <= prior + added && it in added && it !in block && it !in prior
    requires TrackedAt(pool, block, added, mod, made, failed, t)
    ensures TrackedAt(pool, block + {it}, added, CorrectedMap(pool, mod, among, it),
                      MadeAfter(pool, block, mod, made, among, it), failed, t)
  {
    hide Law, Corrected, Pool.Valid;
    assert t in block && t !in added ==> t in prior && it !in pool.Ancestors(t);
    if t in mod || t in among {
      CorrectionKeepsEntry(pool, block, mod, it, t, if t in mod then made[t] else Made(it, pool.Ancestors(t) * block));
    }
  }

  lemma Settled(pool: Pool, block: set<TxId>, skip: set<TxId>, mod: ModMap, made: MadeMap, failed: set<TxId>)
    requires Tracked(pool, block, skip, mod, made, failed) && skip <= block
    ensures Tracked(pool, block, {}, mod, made, failed)
  {
    forall t | t in pool.txs ensures TrackedAt(pool, block, {}, mod, made, failed, t) {
      assert TrackedAt(pool, block, skip, mod, made, failed, t);
    }
  }

  lemma Unaffected(pool: Pool, block: set<TxId>, e: ModEntry, it: TxId, m: Made)
    requires it !in pool.Package(e.tx)
    ensures Law(pool, block, e, m) ==> Law(pool, block + {it}, e, m)
  {
    assert pool.Remaining(e.tx, block + {it}) == pool.Remaining(e.tx, block);
    assert pool.Ancestors(e.tx) * (block + {it}) == pool.Ancestors(e.tx) * block;
  }

  // The order of corrections

  /** Sets of transactions are gone through in the order of their hashes. */
  predicate IsLeast(s: set<TxId>, least: TxId) { least in s && forall u | u in s :: least <= u }

  lemma {:induction false} LeastExists(s: set<TxId>) returns (least: TxId)
    requires s != {}
    ensures IsLeast(s, least)
    decreases |s|
  {
    var t :| t in s;
    if s == {t} { return t; }
    least := LeastExists(s - {t});
    forall u | u in s ensures u == t || least <= u { assert u != t ==> u in s - {t}; }
    if t < least { return t; }
  }

  /** The entry came about when `added` followed `prior`: it was first corrected for the first ancestor in
      `added`, and missed those in `prior`. */
  ghost predicate MadeIn(pool: Pool, prior: set<TxId>, added: set<TxId>, t: TxId, m: Made) {
    IsLeast(pool.Ancestors(t) * added, m.first) && m.missed == pool.Ancestors(t) * prior
  }

  /** Of the entries after `done` was dealt with, those in `was` are as they were, the others came about now. */
  ghost predicate Dating(pool: Pool, prior: set<TxId>, done: set<TxId>, added: set<TxId>, was: ModMap, wasMade: MadeMap,
          mod: ModMap, made: MadeMap) {
    && (forall t | t in mod && t in was :: t in wasMade && t in made && made[t] == wasMade[t])
    && (forall t | t in mod && t !in was :: t in made && MadeIn(pool, prior, added, t, made[t]))
    && (forall t | t in pool.txs && t !in mod && t !in added :: pool.Ancestors(t) !! done)
  }

  lemma DatingStart(pool: Pool, block: set<TxId>, prior: set<TxId>, added: set<TxId>, mod: ModMap, made: MadeMap,
          failed: set<TxId>)
    requires Tracked(pool, block, added, mod, made, failed)
    ensures Dating(pool, prior, {}, added, mod, made, mod, made)
  {
    hide Law;
    forall t | t in mod ensures t in made { assert TrackedAt(pool, block, added, mod, made, failed, t); }
  }

  lemma DatingNext(pool: Pool, prior: set<TxId>, done: set<TxId>, added: set<TxId>, among: set<TxId>, was: ModMap,
          wasMade: MadeMap, mod: ModMap, made: MadeMap, it: TxId)
    requires Dating(pool, prior, done, added, was, wasMade, mod, made) && done <= added && was.Keys <= mod.Keys
    requires among <= pool.cached.Keys
    requires forall t :: t in among <==> t in pool.txs && it in pool.Ancestors(t) && t !in added
    requires IsLeast(added - done, it)
    ensures Dating(pool, prior, done + {it}, added, was, wasMade, CorrectedMap(pool, mod, among, it),
                   MadeAfter(pool, prior + done, mod, made, among, it))
  {
    hide Corrected;
    var made' := MadeAfter(pool, prior + done, mod, made, among, it);
    forall t | t in among && t !in mod ensures MadeIn(pool, prior, added, t, made'[t]) {
      assert pool.Ancestors(t) !! done;
      assert made'[t] == Made(it, pool.Ancestors(t) * (prior + done));
      assert pool.Ancestors(t) * (prior + done) == pool.Ancestors(t) * prior;
      forall u | u in pool.Ancestors(t) * added ensures it <= u { assert u in added - done; }
    }
    hide MadeIn, IsLeast;
  }
}
