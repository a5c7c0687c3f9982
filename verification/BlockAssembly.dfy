/** Block assembly: BlockAssembler::addPackageTxs of src/miner.cpp and its helpers. */
module BlockAssembly {
  import opened Mempool

  const MAX_BLOCK_SIGOPS_COST := 80000
  const WITNESS_SCALE_FACTOR := 4
  const MAX_CONSECUTIVE_FAILURES := 1000

  /** No duplicates, and parents before children. */
  ghost predicate Ordered(pool: Pool, vtx: seq<TxId>) {
    forall i, j | 0 <= i < j < |vtx| :: vtx[i] != vtx[j] && vtx[j] !in pool.Ancestors(vtx[i])
  }

  /** An ordered block that is closed under ancestors. */
  ghost predicate Assembled(pool: Pool, vtx: seq<TxId>, inBlock: set<TxId>) {
    pool.Closed(inBlock) && (forall t :: t in inBlock <==> t in vtx) && Ordered(pool, vtx)
  }

  lemma AssembledAppend(pool: Pool, vtx: seq<TxId>, inBlock: set<TxId>, t: TxId)
    requires Assembled(pool, vtx, inBlock)
    requires t in pool.txs && t !in inBlock && pool.Ancestors(t) <= inBlock
    ensures Assembled(pool, vtx + [t], inBlock + {t})
  {
    forall i | 0 <= i < |vtx| ensures vtx[i] != t && t !in pool.Ancestors(vtx[i]) {
      assert vtx[i] in inBlock;
    }
    OrderedAppend(pool, vtx, t);
    hide Ordered;
  }

  lemma OrderedAppend(pool: Pool, vtx: seq<TxId>, t: TxId)
    requires Ordered(pool, vtx)
    requires forall i | 0 <= i < |vtx| :: vtx[i] != t && t !in pool.Ancestors(vtx[i])
    ensures Ordered(pool, vtx + [t])
  {
    var appended := vtx + [t];
    forall i, j | 0 <= i < j < |appended|
      ensures appended[i] != appended[j] && appended[j] !in pool.Ancestors(appended[i])
    {
      if j < |vtx| { assert appended[i] == vtx[i] && appended[j] == vtx[j]; }
    }
  }

  /** CompareTxIterByAncestorCount */
  predicate Precedes(pool: Pool, a: TxId, b: TxId) {
    var m, n := |pool.Ancestors(a)|, |pool.Ancestors(b)|;
    m < n || (m == n && a < b)
  }

  lemma AncestorPrecedes(pool: Pool, a: TxId, t: TxId)
    requires pool.Valid() && t in pool.txs && a in pool.Ancestors(t)
    ensures Precedes(pool, a, t)
  {
    var theirs, mine := pool.Ancestors(a), pool.Ancestors(t);
    assert theirs <= mine - {a};
    Smaller(theirs, mine - {a});
  }

  lemma {:induction false} Smaller(s: set<TxId>, r: set<TxId>)
    requires s <= r
    ensures |s| <= |r|
    decreases |s|
  {
    if s != {} {
      var t :| t in s;
      Smaller(s - {t}, r - {t});
    }
  }

  predicate IsFirst(pool: Pool, s: set<TxId>, first: TxId) {
    first in s && forall u | u in s :: u == first || Precedes(pool, first, u)
  }

  lemma {:induction false} FirstExists(pool: Pool, s: set<TxId>) returns (first: TxId)
    requires s != {}
    ensures IsFirst(pool, s, first)
    decreases |s|
  {
    var t :| t in s;
    if s == {t} { return t; }
    first := FirstExists(pool, s - {t});
    if !Precedes(pool, first, t) {
      forall u | u in s ensures u == t || Precedes(pool, t, u) {
        assert u != t ==> u in s - {t};
      }
      return t;
    }
  }

  /** No entry at `keys` is better than the one at `best`. */
  predicate IsBest(mod: ModMap, keys: set<TxId>, best: TxId) {
    best in mod && best in keys && forall u | u in mod && u in keys :: !Better(mod[u], mod[best])
  }

  lemma {:induction false} BestExists(mod: ModMap, keys: set<TxId>) returns (best: TxId)
    requires keys != {} && keys <= mod.Keys && forall t | t in mod :: mod[t].size > 0
    ensures best in mod && IsBest(mod, keys, best)
    decreases |keys|
  {
    hide Better;
    var t :| t in keys;
    NotBetterThanSelf(mod[t]);
    if keys == {t} { return t; }
    best := BestExists(mod, keys - {t});
    if Better(mod[t], mod[best]) {
      BetterAsymmetric(mod[t], mod[best]);
      forall u | u in mod && u in keys ensures !Better(mod[u], mod[t]) {
        if u != t { BetterTransitive(mod[t], mod[best], mod[u]); }
      }
      return t;
    }
  }

  /** The figures of what is left of a package, from scratch. */
  ghost function Actual(pool: Pool, block: set<TxId>, t: TxId): ModEntry {
    var left := pool.Remaining(t, block);
    ModEntry(t, Sum(pool.Size(), left), Sum(pool.ModFee(), left), Sum(pool.SigOps(), left))
  }

  lemma ActualTx(pool: Pool, block: set<TxId>, t: TxId)
    ensures Actual(pool, block, t).tx == t
  {
  }

  /** No priority given by hand can leak: only an ancestor that is the single one of its descendants has any. */
  ghost predicate NoLeaks(pool: Pool) {
    forall t, a | t in pool.txs && a in pool.Ancestors(t) :: pool.Delta()(a) == 0 || pool.Ancestors(t) == {a}
  }

  lemma {:induction false} SumZero(f: TxId -> int, s: set<TxId>)
    requires forall t | t in s :: f(t) == 0
    ensures Sum(f, s) == 0
  {
    if s != {} {
      var t :| t in s;
      SumZero(f, s - {t});
      SumRemove(f, s, t);
    }
  }

  lemma {:induction false} SumZeroOnlyIf(f: TxId -> int, s: set<TxId>)
    requires (forall t | t in s :: f(t) >= 0) && Sum(f, s) == 0
    ensures forall t | t in s :: f(t) == 0
  {
    forall t | t in s ensures f(t) == 0 {
      SumRemove(f, s, t);
      SumPart(f, {}, s - {t});
    }
  }

  // How far the figures are off

  /** The least element of a set, if any. */
  ghost function LeastOf(s: set<TxId>): set<TxId> { set u | u in s && IsLeast(s, u) }

  /** The ancestor of `t` that an entry made in the first round with an ancestor is corrected for first. */
  ghost function FirstTaken(pool: Pool, rounds: seq<set<TxId>>, t: TxId): set<TxId> {
    if rounds == [] then {}
    else if pool.Ancestors(t) !! rounds[0] then FirstTaken(pool, rounds[1..], t)
    else LeastOf(pool.Ancestors(t) * rounds[0])
  }

  lemma {:induction false} FirstTakenMore(pool: Pool, rounds: seq<set<TxId>>, next: set<TxId>, t: TxId)
    ensures FirstTaken(pool, rounds, t) != {} ==> FirstTaken(pool, rounds + [next], t) == FirstTaken(pool, rounds, t)
    ensures (forall i | 0 <= i < |rounds| :: pool.Ancestors(t) !! rounds[i]) ==>
      && FirstTaken(pool, rounds, t) == {}
      && FirstTaken(pool, rounds + [next], t)
      == if pool.Ancestors(t) !! next then {} else LeastOf(pool.Ancestors(t) * next)
  {
    var more := rounds + [next];
    if rounds == [] {
      assert more[0] == next && more[1..] == [];
    } else {
      assert more[0] == rounds[0] && more[1..] == rounds[1..] + [next];
      FirstTakenMore(pool, rounds[1..], next, t);
    }
  }

  /** The rounds are part of the block, and the entries that never failed were first corrected in the first
      round with one of their ancestors, for the first of those in the order of hashes. */
  ghost predicate Dated(pool: Pool, block: set<TxId>, rounds: seq<set<TxId>>, mod: ModMap, made: MadeMap,
          failed: set<TxId>) {
    && (forall i | 0 <= i < |rounds| :: rounds[i] <= block)
    && (forall t | t in mod && t !in failed :: t in made && FirstTaken(pool, rounds, t) == {made[t].first})
  }

  /** The figures of an entry are off by those of the ancestors it missed, and its fees by the priority deltas
      of the ancestors subtracted after the first. Each is right exactly when that is nothing. */
  lemma RecreatedExcess(pool: Pool, block: set<TxId>, mod: ModMap, made: MadeMap, failed: set<TxId>, t: TxId)
    requires pool.Valid() && Tracked(pool, block, {}, mod, made, failed) && t in mod
    ensures t in made
    ensures var e, actual, missed := mod[t], Actual(pool, block, t), made[t].missed;
      && e.size == actual.size + Sum(pool.Size(), missed)
      && e.sigOps == actual.sigOps + Sum(pool.SigOps(), missed)
      && e.fees == actual.fees + Sum(pool.ModFee(), missed) + Sum(pool.Delta(), Later(pool, block, t, made[t]))
      && (e.size == actual.size <==> missed == {})
      && (e.sigOps == actual.sigOps <==> forall u | u in missed :: pool.SigOps()(u) == 0)
  {
    hide Pool.Valid, Sum;
    assert TrackedAt(pool, block, {}, mod, made, failed, t);
    hide Tracked;
    PackageFacts(pool, t);
    var left, missed := pool.Remaining(t, block), made[t].missed;
    SumUnion(pool.Size(), left, missed);
    SumUnion(pool.SigOps(), left, missed);
    SumUnion(pool.ModFee(), left, missed);
    if Sum(pool.Size(), missed) == 0 { SumZeroOnlyIf(pool.Size(), missed); }
    if Sum(pool.SigOps(), missed) == 0 { SumZeroOnlyIf(pool.SigOps(), missed); }
    if forall u | u in missed :: pool.SigOps()(u) == 0 { SumZero(pool.SigOps(), missed); }
    if missed == {} { SumNothing(pool.Size()); }
  }

  /** The fees of an entry that never failed are those of the rest of its package if and only if the priority
      deltas of its ancestors in the block cancel out, leaving aside the one with the least hash in the first
      round that had any. */
  lemma FeesExactIff(pool: Pool, block: set<TxId>, rounds: seq<set<TxId>>, mod: ModMap, made: MadeMap,
          failed: set<TxId>, t: TxId)
    requires pool.Valid() && Tracked(pool, block, {}, mod, made, failed)
    requires Dated(pool, block, rounds, mod, made, failed)
    requires t in mod && t !in failed
    ensures mod[t].fees
      == Actual(pool, block, t).fees + Sum(pool.Delta(), pool.Ancestors(t) * block - FirstTaken(pool, rounds, t))
    ensures mod[t].fees == Actual(pool, block, t).fees
      <==> Sum(pool.Delta(), pool.Ancestors(t) * block - FirstTaken(pool, rounds, t)) == 0
  {
    hide Pool.Valid, Actual, FirstTaken, Law;
    assert TrackedAt(pool, block, {}, mod, made, failed, t);
    RecreatedExcess(pool, block, mod, made, failed, t);
    SumNothing(pool.ModFee());
    assert Later(pool, block, t, made[t]) == pool.Ancestors(t) * block - FirstTaken(pool, rounds, t);
  }

  lemma LaterIsNothing(pool: Pool, block: set<TxId>, t: TxId, m: Made)
    requires NoLeaks(pool) && t in pool.txs && m.first in pool.Ancestors(t)
    ensures Sum(pool.Delta(), Later(pool, block, t, m)) == 0
  {
    SumZero(pool.Delta(), Later(pool, block, t, m));
  }

  lemma NothingLeaks(pool: Pool, block: set<TxId>, mod: ModMap, made: MadeMap, failed: set<TxId>, t: TxId)
    requires pool.Valid() && Tracked(pool, block, {}, mod, made, failed) && NoLeaks(pool)
    requires t in mod && t !in failed
    ensures mod[t] == Actual(pool, block, t)
  {
    hide Pool.Valid, Sum, Actual, Later, NoLeaks;
    assert TrackedAt(pool, block, {}, mod, made, failed, t);
    RecreatedExcess(pool, block, mod, made, failed, t);
    SumNothing(pool.ModFee());
    LaterIsNothing(pool, block, t, made[t]);
    ActualTx(pool, block, t);
  }

  /** What is left of a package can follow the block: it is disjoint from it and lacks no ancestor. */
  lemma PackageLeft(pool: Pool, block: set<TxId>, t: TxId)
    requires pool.Valid() && pool.Closed(block) && t in pool.txs && t !in block
    ensures var left := pool.Remaining(t, block);
      t in left && left <= pool.txs.Keys && left !! block && pool.Closed(block + left)
  {
    hide Pool.Figured, Pool.Indexed;
    var left := pool.Remaining(t, block);
    assert t in left && left <= pool.txs.Keys && left !! block;
    forall u | u in left ensures pool.Ancestors(u) <= block + left {
      assert u == t || pool.ancestors[u] <= pool.ancestors[t];
    }
  }

  /** When the figures of a package are large enough, passing TestPackage keeps the real totals in bounds. */
  lemma PackageFits(pool: Pool, block: set<TxId>, e: ModEntry)
    requires pool.Valid() && e.tx in pool.txs && Over(pool, block, e)
    ensures var left := pool.Remaining(e.tx, block);
      Sum(pool.Weight(), left) <= WITNESS_SCALE_FACTOR * e.size && Sum(pool.SigOps(), left) <= e.sigOps
  {
    PackageFacts(pool, e.tx);
    SumFourfold(pool.Weight(), pool.Size(), pool.Remaining(e.tx, block));
  }

  /** The figures of a package outside the block are positive. */
  lemma SizePositive(pool: Pool, block: set<TxId>, e: ModEntry)
    requires pool.Valid() && e.tx in pool.txs && e.tx !in block && Over(pool, block, e)
    ensures e.size > 0
  {
    PackageFacts(pool, e.tx);
    var left := pool.Remaining(e.tx, block);
    SumRemove(pool.Size(), left, e.tx);
    SumPart(pool.Size(), {}, left - {e.tx});
  }

  lemma WholeIsOver(pool: Pool, block: set<TxId>, t: TxId)
    requires pool.Valid() && t in pool.txs
    ensures t in pool.cached && pool.cached[t].tx == t && Over(pool, block, pool.cached[t])
    ensures t !in block && pool.Ancestors(t) !! block ==> pool.cached[t] == Actual(pool, block, t)
  {
    hide Pool.Valid, Sum;
    PackageFacts(pool, t);
    SumPart(pool.Size(), pool.Remaining(t, block), pool.Package(t));
    SumPart(pool.SigOps(), pool.Remaining(t, block), pool.Package(t));
    if t !in block && pool.Ancestors(t) !! block {
      assert pool.Remaining(t, block) == pool.Package(t);
    }
  }

  /** A package that went into the block: the block before it, the figures it was chosen by, the transactions
      given up by then, and those that had failed as modified entries. */
  datatype Pick = Pick(block: set<TxId>, e: ModEntry, givenUp: set<TxId>, failed: set<TxId>)

  /** The package of a transaction that was not included: the block at the time, and the figures. */
  datatype Refusal = Refusal(block: set<TxId>, e: ModEntry)

  type Refusals = map<TxId, Refusal>

  /** The pick had the best fee rate of all packages left, among those not given up. */
  ghost predicate Greedy(pool: Pool, p: Pick) {
    p.e.tx !in p.givenUp ==>
      forall t | t in pool.txs && t !in p.block && t !in p.givenUp ::
        !Better(Actual(pool, p.block, t), Actual(pool, p.block, p.e.tx))
  }

  /** If no priority can leak, every pick was the best one. */
  ghost predicate AllGreedy(pool: Pool, picks: seq<Pick>) {
    NoLeaks(pool) ==> forall p | p in picks :: Greedy(pool, p)
  }

  /** What the block was made of: where it started, and the package of each pick. */
  ghost function Rounds(pool: Pool, start: set<TxId>, picks: seq<Pick>): seq<set<TxId>> {
    if picks == [] then [start]
    else
      var last := picks[|picks| - 1];
      Rounds(pool, start, picks[..|picks| - 1]) + [pool.Remaining(last.e.tx, last.block)]
  }

  /** The figures a pick was chosen by, after these rounds: size and sigops are those of the package, the fees
      are off by priority deltas as FeesExactIff says. */
  ghost predicate Charged(pool: Pool, rounds: seq<set<TxId>>, p: Pick) {
    p.e.tx !in p.failed ==>
      var actual := Actual(pool, p.block, p.e.tx);
      && p.e.size == actual.size && p.e.sigOps == actual.sigOps
      && p.e.fees == actual.fees
         + Sum(pool.Delta(), pool.Ancestors(p.e.tx) * p.block - FirstTaken(pool, rounds, p.e.tx))
  }

  /** The picks, one after the other, took the block from `start` to `end`, each by its figures. */
  ghost predicate Built(pool: Pool, start: set<TxId>, picks: seq<Pick>, end: set<TxId>) {
    if picks == [] then end == start
    else
      var last, before := picks[|picks| - 1], picks[..|picks| - 1];
      && Built(pool, start, before, last.block) && Charged(pool, Rounds(pool, start, before), last)
      && end == last.block + pool.Remaining(last.e.tx, last.block)
  }

  /** How many corrections the picks caused. */
  ghost function Updates(pool: Pool, picks: seq<Pick>): int {
    if picks == [] then 0
    else
      var last := picks[|picks| - 1];
      Updates(pool, picks[..|picks| - 1]) + Corrections(pool, pool.Remaining(last.e.tx, last.block))
  }

  /** Every transaction is in the block, still to be looked at, or was given up. */
  ghost predicate Covered(pool: Pool, block: set<TxId>, mi: nat, mod: ModMap, givenUp: set<TxId>)
    requires mi <= |pool.byScore|
  {
    forall t | t in pool.txs :: t in block || t in mod || t in givenUp || t in pool.byScore[mi..]
  }

  lemma PickIsGreedy(pool: Pool, block: set<TxId>, mi: nat, mod: ModMap, made: MadeMap, failed: set<TxId>,
          givenUp: set<TxId>, e: ModEntry)
    requires pool.Valid() && Tracked(pool, block, {}, mod, made, failed) && NoLeaks(pool)
    requires mi <= |pool.byScore| && Covered(pool, block, mi, mod, givenUp) && failed <= givenUp
    requires e.tx in pool.txs && e.tx in pool.cached && e.tx !in block && IsBestChoice(pool, mi, mod, e)
    requires e == if e.tx in mod then mod[e.tx] else pool.cached[e.tx]
    ensures Greedy(pool, Pick(block, e, givenUp, failed))
  {
    hide Better, Law, Actual, Pool.Valid, Pool.Whole, NoLeaks;
    if e.tx !in givenUp {
      LookedAtIsActual(pool, block, mod, made, failed, e.tx);
      forall t | t in pool.txs && t !in block && t !in givenUp
        ensures !Better(Actual(pool, block, t), Actual(pool, block, e.tx))
      {
        LookedAtIsActual(pool, block, mod, made, failed, t);
        if t !in mod {
          var j :| mi <= j < |pool.byScore| && pool.byScore[j] == t;
          PackageFacts(pool, t);
        }
      }
    }
  }

  lemma NoneYet(pool: Pool)
    ensures AllGreedy(pool, [])
  {
  }

  lemma GreedyMore(pool: Pool, mi: nat, mod: ModMap, made: MadeMap, e: ModEntry, picks: seq<Pick>, pick: Pick)
    requires pool.Valid() && Tracked(pool, pick.block, {}, mod, made, pick.failed) && AllGreedy(pool, picks)
    requires mi <= |pool.byScore| && Covered(pool, pick.block, mi, mod, pick.givenUp) && pick.failed <= pick.givenUp
    requires e.tx in pool.txs && e.tx in pool.cached && e.tx !in pick.block && IsBestChoice(pool, mi, mod, e)
    requires e == if e.tx in mod then mod[e.tx] else pool.cached[e.tx]
    requires e == pick.e
    ensures AllGreedy(pool, picks + [pick])
  {
    hide Greedy;
    if NoLeaks(pool) { PickIsGreedy(pool, pick.block, mi, mod, made, pick.failed, pick.givenUp, e); }
  }

  lemma NothingTracked(pool: Pool, block: set<TxId>)
    ensures Tracked(pool, {}, block, map[], map[], {}) && pool.Closed({})
  {
  }

  lemma AllToLookAt(pool: Pool, block: set<TxId>, mod: ModMap)
    requires pool.Valid()
    ensures Covered(pool, block, 0, mod, {})
  {
    assert pool.byScore[0..] == pool.byScore;
  }

  lemma AllLookedAt(pool: Pool, block: set<TxId>, mod: ModMap, givenUp: set<TxId>)
    requires Covered(pool, block, |pool.byScore|, mod, givenUp) && mod == map[]
    ensures forall t | t in pool.txs :: t in block || t in givenUp
  {
  }

  lemma BuiltNothing(pool: Pool, start: set<TxId>)
    ensures Built(pool, start, [], start) && Rounds(pool, start, []) == [start] && Updates(pool, []) == 0
  {
  }

  lemma BuiltMore(pool: Pool, start: set<TxId>, picks: seq<Pick>, pick: Pick)
    requires Built(pool, start, picks, pick.block) && Charged(pool, Rounds(pool, start, picks), pick)
    ensures var package := pool.Remaining(pick.e.tx, pick.block);
      && Built(pool, start, picks + [pick], pick.block + package)
      && Rounds(pool, start, picks + [pick]) == Rounds(pool, start, picks) + [package]
      && Updates(pool, picks + [pick]) == Updates(pool, picks) + Corrections(pool, package)
  {
    assert (picks + [pick])[..|picks|] == picks;
  }

  /** The first round dates the entries it makes. */
  lemma DatedStart(pool: Pool, start: set<TxId>, mod: ModMap, made: MadeMap)
    requires Dating(pool, {}, start, start, map[], map[], mod, made)
    ensures Dated(pool, start, [start], mod, made, {})
  {
    forall t | t in mod ensures t in made && FirstTaken(pool, [start], t) == {made[t].first} {
      LeastIs(pool.Ancestors(t) * start, made[t].first);
      FirstTakenMore(pool, [], start, t);
      assert [] + [start] == [start];
    }
  }

  lemma LeastIs(s: set<TxId>, least: TxId)
    requires IsLeast(s, least)
    ensures LeastOf(s) == {least}
  {
  }

  lemma Apart(a: set<TxId>, part: set<TxId>, all: set<TxId>)
    requires part <= all && a * all == {}
    ensures a !! part
  {
    forall t | t in a ensures t !in part { assert t in all ==> t in a * all; }
  }

  /** A further round keeps the dates of old entries and dates new ones. */
  lemma DatedMore(pool: Pool, prior: set<TxId>, added: set<TxId>, rounds: seq<set<TxId>>, was: ModMap, wasMade: MadeMap,
          mod: ModMap, made: MadeMap, failed: set<TxId>)
    requires Dated(pool, prior, rounds, was, wasMade, failed)
    requires Dating(pool, prior, added, added, was, wasMade, mod, made)
    requires Tracked(pool, prior + added, {}, mod, made, failed)
    ensures Dated(pool, prior + added, rounds + [added], mod, made, failed)
  {
    hide FirstTaken, LeastOf, Law;
    var more := rounds + [added];
    forall t | t in mod && t !in failed ensures t in made && FirstTaken(pool, more, t) == {made[t].first} {
      FirstTakenMore(pool, rounds, added, t);
      assert TrackedAt(pool, prior + added, {}, mod, made, failed, t);
      if t !in was {
        LeastIs(pool.Ancestors(t) * added, made[t].first);
        assert pool.Ancestors(t) * prior == {};
        forall i | 0 <= i < |rounds| ensures pool.Ancestors(t) !! rounds[i] {
          Apart(pool.Ancestors(t), rounds[i], prior);
        }
      }
    }
  }

  lemma DatedPart(pool: Pool, block: set<TxId>, rounds: seq<set<TxId>>, mod: ModMap, made: MadeMap, failed: set<TxId>,
          part: set<TxId>, failed': set<TxId>)
    requires Dated(pool, block, rounds, mod, made, failed) && failed <= failed'
    ensures Dated(pool, block, rounds, mod - part, made, failed')
  {
  }

  /** Moving on in the index keeps everything covered, as long as the entry passed over is accounted for. */
  lemma StillCovered(pool: Pool, block: set<TxId>, mi: nat, mod: ModMap, givenUp: set<TxId>,
                     block': set<TxId>, mi': nat, mod': ModMap, givenUp': set<TxId>)
    requires mi <= mi' <= |pool.byScore| && mi' <= mi + 1
    requires Covered(pool, block, mi, mod, givenUp)
    requires block <= block' && givenUp <= givenUp' && mod.Keys <= mod'.Keys + block' + givenUp'
    requires mi < mi' ==> pool.byScore[mi] in mod'.Keys + block' + givenUp'
    ensures Covered(pool, block', mi', mod', givenUp')
  {
    if mi < mi' { assert pool.byScore[mi..] == [pool.byScore[mi]] + pool.byScore[mi'..]; }
  }

  lemma Chosen(pool: Pool, block: set<TxId>, mod: ModMap, made: MadeMap, failed: set<TxId>, t: TxId)
    requires pool.Valid() && Tracked(pool, block, {}, mod, made, failed) && t in pool.txs
    ensures t in mod ==> t !in block && Over(pool, block, mod[t])
    ensures t in pool.cached && Over(pool, block, pool.cached[t])
  {
    hide Pool.Valid, Over, Law;
    assert TrackedAt(pool, block, {}, mod, made, failed, t);
    if t in mod { LawIsOver(pool, block, mod[t], made[t]); }
    WholeIsOver(pool, block, t);
  }

  lemma Dropped(pool: Pool, block: set<TxId>, mod: ModMap, made: MadeMap, failed: set<TxId>, t: TxId)
    requires Tracked(pool, block, {}, mod, made, failed)
    ensures Tracked(pool, block, {}, mod - {t}, made, failed + {t})
  {
    hide Law;
    forall u | u in pool.txs ensures TrackedAt(pool, block, {}, mod - {t}, made, failed + {t}, u) {
      assert TrackedAt(pool, block, {}, mod, made, failed, u);
    }
  }

  /** The figures used for a transaction that never failed are the real ones. */
  lemma LookedAtIsActual(pool: Pool, block: set<TxId>, mod: ModMap, made: MadeMap, failed: set<TxId>, t: TxId)
    requires pool.Valid() && Tracked(pool, block, {}, mod, made, failed) && NoLeaks(pool)
    requires t in pool.txs && t !in block && t !in failed
    ensures t in mod ==> mod[t] == Actual(pool, block, t)
    ensures t !in mod ==> t in pool.cached && pool.cached[t] == Actual(pool, block, t)
  {
    hide Pool.Valid, Law, Actual, NoLeaks;
    assert TrackedAt(pool, block, {}, mod, made, failed, t);
    if t in mod {
      NothingLeaks(pool, block, mod, made, failed, t);
    } else {
      WholeIsOver(pool, block, t);
    }
  }

  /** Every pick is charged as it should be. */
  lemma PickIsCharged(pool: Pool, rounds: seq<set<TxId>>, mod: ModMap, made: MadeMap, p: Pick)
    requires pool.Valid() && Tracked(pool, p.block, {}, mod, made, p.failed)
    requires Dated(pool, p.block, rounds, mod, made, p.failed)
    requires p.e.tx in pool.txs && p.e.tx in pool.cached && p.e.tx !in p.block
    requires p.e == if p.e.tx in mod then mod[p.e.tx] else pool.cached[p.e.tx]
    ensures Charged(pool, rounds, p)
  {
    hide Pool.Valid, Law, Actual, FirstTaken, Sum;
    var t := p.e.tx;
    assert TrackedAt(pool, p.block, {}, mod, made, p.failed, t);
    if t !in p.failed {
      if t in mod {
        RecreatedExcess(pool, p.block, mod, made, p.failed, t);
        FeesExactIff(pool, p.block, rounds, mod, made, p.failed, t);
        SumNothing(pool.SigOps());
      } else {
        WholeIsOver(pool, p.block, t);
        assert pool.Ancestors(t) * p.block - FirstTaken(pool, rounds, t) == {};
        SumNothing(pool.Delta());
      }
    }
  }

  /** The descendants of `it` that are corrected when `added` goes into the block. */
  ghost function Touched(pool: Pool, added: set<TxId>, it: TxId): set<TxId> {
    set t | t in pool.cached && it in pool.Ancestors(t) && t !in added
  }

  ghost function TouchedBy(pool: Pool, added: set<TxId>): TxId -> int {
    (it: TxId) => |Touched(pool, added, it)|
  }

  ghost function Corrections(pool: Pool, added: set<TxId>): int { Sum(TouchedBy(pool, added), added) }

  /** Why a package was given up: at the time it was too big by its figures, which were large enough, or part of
      it was not final. */
  ghost predicate Refused(pool: Pool, maxWeight: int, isFinal: TxId -> bool, r: Refusal) {
    && Over(pool, r.block, r.e)
    && (|| 4000 + Sum(pool.Weight(), r.block) + WITNESS_SCALE_FACTOR * r.e.size >= maxWeight
        || 400 + Sum(pool.SigOps(), r.block) + r.e.sigOps >= MAX_BLOCK_SIGOPS_COST
        || exists u | u in pool.Remaining(r.e.tx, r.block) :: !isFinal(u))
  }

  /** Every transaction given up was refused, when the block was a part of this one. */
  ghost predicate RefusedBy(pool: Pool, maxWeight: int, isFinal: TxId -> bool, block: set<TxId>, givenUp: Refusals) {
    forall t | t in givenUp ::
      givenUp[t].e.tx == t && givenUp[t].block <= block && Refused(pool, maxWeight, isFinal, givenUp[t])
  }

  lemma StillRefused(pool: Pool, maxWeight: int, isFinal: TxId -> bool, block: set<TxId>, more: set<TxId>,
          givenUp: Refusals)
    requires RefusedBy(pool, maxWeight, isFinal, block, givenUp) && block <= more
    ensures RefusedBy(pool, maxWeight, isFinal, more, givenUp)
  {
    hide Refused;
  }

  lemma GiveUp(pool: Pool, maxWeight: int, isFinal: TxId -> bool, block: set<TxId>, givenUp: Refusals, e: ModEntry)
    requires RefusedBy(pool, maxWeight, isFinal, block, givenUp) && Refused(pool, maxWeight, isFinal, Refusal(block, e))
    ensures RefusedBy(pool, maxWeight, isFinal, block, givenUp[e.tx := Refusal(block, e)])
  {
    hide Refused;
  }

  /** How the selection ended: nothing was left, the best package left paid too little, or the block was nearly
      full after many failures in a row. */
  datatype End = Exhausted | PaysTooLittle(e: ModEntry, failed: set<TxId>) | NearlyFull

  datatype Verdict = Skipped | BelowMinFee | TooBig | NotFinal | Included

  class BlockAssembler {
    const pool: Pool
    const nBlockMaxWeight: int
    /** blockMinFeeRate.GetFee, and IsFinalTx at the new block's height and time. */
    const minFee: int -> int
    const isFinal: TxId -> bool

    var vtx: seq<TxId>
    var vTxFees: seq<int>
    var vTxSigOpsCost: seq<int>
    var inBlock: set<TxId>
    var nBlockWeight: int
    var nBlockSigOpsCost: int
    var nBlockTx: int
    var nFees: int

    /** The block is well formed and every counter is the exact total. */
    ghost predicate Valid()
      reads this
    {
      && pool.Valid()
      && Assembled(pool, vtx, inBlock)
      && vTxFees == seq(|vtx|, i requires 0 <= i < |vtx| reads this => pool.At(vtx[i]).fee)
      && vTxSigOpsCost == seq(|vtx|, i requires 0 <= i < |vtx| reads this => pool.At(vtx[i]).sigOps)
      && nBlockTx == |vtx|
      && nBlockWeight == 4000 + Sum(pool.Weight(), inBlock)
      && nBlockSigOpsCost == 400 + Sum(pool.SigOps(), inBlock)
      && nFees == Sum(pool.Fee(), inBlock)
    }

    ghost predicate WithinLimits()
      reads this
    {
      nBlockWeight <= nBlockMaxWeight && nBlockSigOpsCost < MAX_BLOCK_SIGOPS_COST
    }

    ghost predicate AllFinal()
      reads this
    {
      forall t | t in inBlock :: isFinal(t)
    }

    /** The weight limit is clamped as the options are; resetBlock reserves room for the coinbase. */
    constructor (pool: Pool, maxWeight: int, optionWeight: int, minFee: int -> int, isFinal: TxId -> bool)
      requires pool.Valid()
      ensures this.pool == pool && this.minFee == minFee && this.isFinal == isFinal
      ensures nBlockMaxWeight >= 4000 && (4000 <= optionWeight <= maxWeight - 4000 ==> nBlockMaxWeight == optionWeight)
      ensures optionWeight < 4000 || maxWeight < 8000 ==> nBlockMaxWeight == 4000
      ensures 4000 <= maxWeight - 4000 <= optionWeight ==> nBlockMaxWeight == maxWeight - 4000
      ensures Valid() && WithinLimits() && AllFinal() && vtx == []
    {
      this.pool, this.minFee, this.isFinal := pool, minFee, isFinal;
      var clamped := if maxWeight - 4000 < optionWeight then maxWeight - 4000 else optionWeight;
      nBlockMaxWeight := if clamped < 4000 then 4000 else clamped;
      vtx, vTxFees, vTxSigOpsCost, inBlock := [], [], [], {};
      nBlockWeight, nBlockSigOpsCost, nBlockTx, nFees := 4000, 400, 0, 0;
    }

    predicate TestPackage(packageSize: int, packageSigOpsCost: int)
      reads this
    {
      && nBlockWeight + WITNESS_SCALE_FACTOR * packageSize < nBlockMaxWeight
      && nBlockSigOpsCost + packageSigOpsCost < MAX_BLOCK_SIGOPS_COST
    }

    method AddToBlock(t: TxId)
      requires Valid() && t in pool.txs && t !in inBlock && pool.Ancestors(t) <= inBlock
      modifies this
      ensures Valid()
      ensures vtx == old(vtx) + [t] && inBlock == old(inBlock) + {t}
    {
      hide Assembled, Pool.Valid, Sum;
      AssembledAppend(pool, vtx, inBlock, t);
      SumAdd(pool.Weight(), inBlock, t);
      SumAdd(pool.SigOps(), inBlock, t);
      SumAdd(pool.Fee(), inBlock, t);
      vtx := vtx + [t];
      vTxFees := vTxFees + [pool.At(t).fee];
      vTxSigOpsCost := vTxSigOpsCost + [pool.At(t).sigOps];
      nBlockWeight := nBlockWeight + pool.At(t).weight;
      nBlockTx := nBlockTx + 1;
      nBlockSigOpsCost := nBlockSigOpsCost + pool.At(t).sigOps;
      nFees := nFees + pool.At(t).fee;
      inBlock := inBlock + {t};
    }

    /** Sorts a package so that ancestors come first. */
    method SortForBlock(package: set<TxId>) returns (sorted: seq<TxId>)
      ensures forall t :: t in package <==> t in sorted
      ensures forall i, j | 0 <= i < j < |sorted| :: Precedes(pool, sorted[i], sorted[j])
    {
      sorted := [];
      var rest := package;
      while rest != {}
        invariant forall t :: t in package <==> t in sorted || t in rest
        invariant forall i, t | 0 <= i < |sorted| && t in rest :: Precedes(pool, sorted[i], t)
        invariant forall i, j | 0 <= i < j < |sorted| :: Precedes(pool, sorted[i], sorted[j])
        decreases rest
      {
        ghost var first := FirstExists(pool, rest);
        var t :| t in rest && IsFirst(pool, rest, t);
        assert IsFirst(pool, rest, t);
        sorted := sorted + [t];
        rest := rest - {t};
      }
    }

    /** The inner loop of UpdatePackagesForAdded: corrects every descendant of `it` not just added. */
    method CorrectDescendants(it: TxId, added: set<TxId>, mod: ModMap)
      returns (corrected: ModMap, nUpdated: int, ghost among: set<TxId>)
      requires pool.cached.Keys == pool.ancestors.Keys
      ensures forall t :: t in among <==> t in pool.cached && it in pool.Ancestors(t) && t !in added
      ensures nUpdated == |among|
      ensures among <= pool.cached.Keys && corrected == CorrectedMap(pool, mod, among, it)
      ensures mod.Keys <= corrected.Keys
    {
      hide Corrected, CorrectedMap;
      CorrectedNone(pool, mod, it);
      var descendants := set t | t in pool.ancestors && it in pool.ancestors[t];
      var rest := descendants;
      corrected, nUpdated, among := mod, 0, {};
      while rest != {}
        invariant forall t :: t in descendants && t !in added <==> t in among || (t in rest && t !in added)
        invariant among !! rest && rest <= descendants && among <= pool.cached.Keys
        invariant corrected == CorrectedMap(pool, mod, among, it) && nUpdated == |among|
        decreases rest
      {
        var d :| d in rest;
        rest := rest - {d};
        if d !in added {
          CorrectedOnce(pool, mod, among, it, d);
          among := among + {d};
          corrected := corrected[d := Corrected(pool, corrected, d, it)];
          nUpdated := nUpdated + 1;
        }
      }
      CorrectedKeys(pool, mod, among, it);
    }

    /** Corrects the modified set for everything in `added`, in the order of hashes. */
    method UpdatePackagesForAdded(added: set<TxId>, mod: ModMap, ghost prior: set<TxId>, ghost made: MadeMap,
            ghost failed: set<TxId>)
      returns (updated: ModMap, nUpdated: int, ghost made': MadeMap)
      requires pool.Valid() && pool.Closed(prior) && added !! prior && added <= pool.txs.Keys
      requires Tracked(pool, prior, added, mod, made, failed)
      ensures Tracked(pool, prior + added, {}, updated, made', failed)
      ensures Dating(pool, prior, added, added, mod, made, updated, made')
      ensures mod.Keys <= updated.Keys && nUpdated == Corrections(pool, added)
    {
      hide *;
      PoolKeys(pool);
      updated, nUpdated, made' := mod, 0, made;
      var rest := added;
      ghost var done: set<TxId> := {};
      assert prior + done == prior;
      DatingStart(pool, prior, prior, added, mod, made, failed);
      SumNothing(TouchedBy(pool, added));
      while rest != {}
        invariant done + rest == added && done !! rest
        invariant mod.Keys <= updated.Keys && nUpdated == Sum(TouchedBy(pool, added), done)
        invariant Tracked(pool, prior + done, added, updated, made', failed)
        invariant Dating(pool, prior, done, added, mod, made, updated, made')
        decreases rest
      {
        ghost var least := LeastExists(rest);
        var it :| it in rest && IsLeast(rest, it);
        var corrected, n, among := CorrectDescendants(it, added, updated);
        AmongAre(pool, added, it, among);
        assert added - done == rest;
        CorrectionKeepsTracked(pool, prior, done, added, among, updated, made', failed, it);
        DatingNext(pool, prior, done, added, among, mod, made, updated, made', it);
        SumAdd(TouchedBy(pool, added), done, it);
        made' := MadeAfter(pool, prior + done, updated, made', among, it);
        updated, rest, nUpdated := corrected, rest - {it}, nUpdated + n;
        assert prior + done + {it} == prior + (done + {it});
        done := done + {it};
      }
      assert done == added;
      CorrectionsAre(pool, added);
      Settled(pool, prior + added, added, updated, made', failed);
    }

    /** The entry to look at next: the next one of the pool's index or the best modified one. */
    method Choose(mi: nat, mod: ModMap, ghost made: MadeMap, ghost failed: set<TxId>)
      returns (e: ModEntry, usingModified: bool)
      requires pool.Valid() && Tracked(pool, inBlock, {}, mod, made, failed)
      requires mi <= |pool.byScore| && (mi < |pool.byScore| || mod != map[])
      ensures usingModified ==> e.tx in mod && e == mod[e.tx]
      ensures !usingModified ==>
        mi < |pool.byScore| && e.tx == pool.byScore[mi] && e.tx in pool.cached && e == pool.cached[e.tx]
      ensures e.tx in pool.txs && IsBestChoice(pool, mi, mod, e)
    {
      hide *;
      PoolKeys(pool);
      Positive(pool, inBlock, mod, made, failed);
      if mod == map[] {
        ChooseIndexed(pool, mi, mod);
        return pool.cached[pool.byScore[mi]], false;
      }
      ghost var best := BestExists(mod, mod.Keys);
      var modit :| modit in mod && IsBest(mod, mod.Keys, modit);
      assert IsBest(mod, mod.Keys, modit);
      if mi == |pool.byScore| || Better(mod[modit], pool.cached[pool.byScore[mi]]) {
        ChooseModified(pool, mi, mod, modit);
        return mod[modit], true;
      }
      ChooseIndexed(pool, mi, mod);
      return pool.cached[pool.byScore[mi]], false;
    }

    /** Puts what is left of a package into the block, ancestors first, and takes it out of the
        modified set. */
    method AddSorted(package: set<TxId>, mod: ModMap) returns (kept: ModMap)
      requires Valid() && package <= pool.txs.Keys && package !! inBlock && pool.Closed(inBlock + package)
      modifies this
      ensures Valid() && old(vtx) <= vtx && inBlock == old(inBlock) + package
      ensures kept == mod - package
    {
      hide *;
      var sorted := SortForBlock(package);
      kept := mod;
      ghost var done: set<TxId> := {};
      for i := 0 to |sorted|
        invariant Valid() && old(vtx) <= vtx
        invariant forall t :: t in done <==> t in sorted[..i]
        invariant inBlock == old(inBlock) + done
        invariant kept == mod - done
      {
        ValidPool();
        NextInOrder(pool, old(inBlock), package, sorted, i, done);
        AddToBlock(sorted[i]);
        kept := kept - {sorted[i]};
        assert sorted[..i + 1] == sorted[..i] + [sorted[i]];
        done := done + {sorted[i]};
      }
      assert sorted[..|sorted|] == sorted;
      assert done == package;
    }

    /** Includes what is left of the package of `e`, if all of it is final. */
    method IncludePackage(e: ModEntry, mod: ModMap, ghost made: MadeMap, ghost failed: set<TxId>)
      returns (included: bool, updated: ModMap, nUpdated: int, ghost made': MadeMap)
      requires Valid() && WithinLimits() && AllFinal() && Tracked(pool, inBlock, {}, mod, made, failed)
      requires e.tx in pool.txs && e.tx !in inBlock && Over(pool, inBlock, e) && TestPackage(e.size, e.sigOps)
      modifies this
      ensures Valid() && WithinLimits() && AllFinal() && Tracked(pool, inBlock, {}, updated, made', failed)
      ensures included <==> forall t | t in pool.Remaining(e.tx, old(inBlock)) :: isFinal(t)
      ensures old(vtx) <= vtx && mod.Keys <= updated.Keys + inBlock
      ensures included ==>
        var package := pool.Remaining(e.tx, old(inBlock));
        && inBlock == old(inBlock) + package && e.tx in inBlock && nUpdated == Corrections(pool, package)
        && Dating(pool, old(inBlock), package, package, mod - package, made, updated, made')
      ensures !included ==> inBlock == old(inBlock) && updated == mod && made' == made && nUpdated == 0
    {
      hide Valid, Tracked, Dating, Over, Corrections, Pool.Valid, Pool.Closed, Sum;
      ValidPool();
      PackageLeft(pool, inBlock, e.tx);
      PackageFits(pool, inBlock, e);
      var package := pool.Ancestors(e.tx) - inBlock + {e.tx};
      assert package == pool.Remaining(e.tx, inBlock);
      if exists t | t in package :: !isFinal(t) {
        return false, mod, 0, made;
      }
      SumUnion(pool.Weight(), inBlock, package);
      SumUnion(pool.SigOps(), inBlock, package);
      Taken(pool, inBlock, mod, made, failed, package);
      var kept := AddSorted(package, mod);
      updated, nUpdated, made' := UpdatePackagesForAdded(package, kept, old(inBlock), made, failed);
      ValidPool();
      included := true;
    }

    ghost predicate AllRefused(givenUp: Refusals)
      reads this
    {
      RefusedBy(pool, nBlockMaxWeight, isFinal, inBlock, givenUp)
    }

    /** What holds between two rounds of the selection loop. */
    ghost predicate Selecting(start: set<TxId>, mi: nat, mod: ModMap, made: MadeMap, failed: set<TxId>,
            givenUp: Refusals, picks: seq<Pick>)
      reads this
    {
      && Valid() && WithinLimits() && AllFinal()
      && mi <= |pool.byScore| && failed <= givenUp.Keys && AllRefused(givenUp)
      && Tracked(pool, inBlock, {}, mod, made, failed) && Covered(pool, inBlock, mi, mod, givenUp.Keys)
      && Dated(pool, inBlock, Rounds(pool, start, picks), mod, made, failed)
      && Built(pool, start, picks, inBlock)
      && AllGreedy(pool, picks)
    }

    /** Looks at one entry: the next one of the index, unless stale, or the best modified one. */
    method Consider(mi: nat, mod: ModMap, failed: set<TxId>, ghost start: set<TxId>, ghost made: MadeMap,
            ghost givenUp: Refusals, ghost picks: seq<Pick>)
      returns (verdict: Verdict, mi': nat, mod': ModMap, failed': set<TxId>, nUpdated: int, ghost made': MadeMap,
               ghost givenUp': Refusals, ghost picks': seq<Pick>, ghost e: ModEntry)
      requires Selecting(start, mi, mod, made, failed, givenUp, picks)
      requires mi < |pool.byScore| || mod != map[]
      modifies this
      ensures Selecting(start, mi', mod', made', failed', givenUp', picks') && old(vtx) <= vtx
      ensures verdict == Included ==> old(inBlock) < inBlock && |picks'| == |picks| + 1
      ensures verdict != Included ==> inBlock == old(inBlock) && picks' == picks
      ensures verdict != Included && verdict != BelowMinFee ==> mi' > mi || (mi' == mi && |mod'| < |mod|)
      ensures verdict == BelowMinFee ==> TooLittle(e, failed', givenUp')
      ensures nUpdated == Updates(pool, picks') - Updates(pool, picks)
    {
      hide *;
      KnownKeys(start, mi, mod, made, failed, givenUp, picks);
      mi', mod', failed', nUpdated := mi, mod, failed, 0;
      made', givenUp', picks', e := made, givenUp, picks, ModEntry(0, 0, 0, 0);
      if mi < |pool.byScore| && SkipMapTxEntry(pool.byScore[mi], mod, failed) {
        PassOver(start, mi, mod, made, failed, givenUp, picks);
        verdict, mi' := Skipped, mi + 1;
        return;
      }
      var entry, usingModified := Choose(mi, mod, made, failed);
      e := entry;
      ChosenEntry(start, mi, mod, made, failed, givenUp, picks, e, usingModified);
      if entry.fees < minFee(entry.size) {
        LastLook(start, mi, mod, made, failed, givenUp, picks, e);
        verdict := BelowMinFee;
        return;
      }
      mi' := if usingModified then mi else mi + 1;
      verdict, mod', nUpdated, made', picks' := Attempt(entry, mi, mi', mod, start, made, failed, givenUp, picks);
      if verdict != Included {
        givenUp' := givenUp[e.tx := Refusal(inBlock, e)];
        if usingModified {
          GiveUpModified(start, mi, mod, made, failed, givenUp, picks, e);
          mod', failed' := mod - {entry.tx}, failed + {entry.tx};
        } else {
          GiveUpIndexed(start, mi, mod, made, failed, givenUp, picks, e);
        }
      }
    }

    lemma KnownKeys(start: set<TxId>, mi: nat, mod: ModMap, made: MadeMap, failed: set<TxId>, givenUp: Refusals,
            picks: seq<Pick>)
      requires Selecting(start, mi, mod, made, failed, givenUp, picks)
      ensures pool.Valid() && mi <= |pool.byScore| && Tracked(pool, inBlock, {}, mod, made, failed)
    {
    }

    /** The entry chosen is not in the block, and its figures are large enough. */
    lemma ChosenEntry(start: set<TxId>, mi: nat, mod: ModMap, made: MadeMap, failed: set<TxId>, givenUp: Refusals,
            picks: seq<Pick>, e: ModEntry, usingModified: bool)
      requires Selecting(start, mi, mod, made, failed, givenUp, picks)
      requires mi < |pool.byScore| ==> !SkipMapTxEntry(pool.byScore[mi], mod, failed)
      requires e.tx in pool.txs
      requires if usingModified then e.tx in mod && e == mod[e.tx]
               else mi < |pool.byScore| && e.tx == pool.byScore[mi] && e.tx in pool.cached && e == pool.cached[e.tx]
      ensures e.tx in pool.cached && e.tx !in inBlock && Over(pool, inBlock, e)
      ensures e == if e.tx in mod then mod[e.tx] else pool.cached[e.tx]
    {
      hide Valid, WithinLimits, AllFinal, AllRefused, Tracked, Dated, Covered, Built, Rounds, AllGreedy, Over;
      hide Pool.Valid;
      ValidPool();
      Chosen(pool, inBlock, mod, made, failed, e.tx);
    }

    /** The best package left pays too little. */
    ghost predicate TooLittle(e: ModEntry, failed: set<TxId>, givenUp: Refusals)
      reads this
    {
      e.fees < minFee(e.size) && (NoLeaks(pool) ==> Greedy(pool, Pick(inBlock, e, givenUp.Keys, failed)))
    }

    lemma LastLook(start: set<TxId>, mi: nat, mod: ModMap, made: MadeMap, failed: set<TxId>, givenUp: Refusals,
            picks: seq<Pick>, e: ModEntry)
      requires Selecting(start, mi, mod, made, failed, givenUp, picks) && e.fees < minFee(e.size)
      requires e.tx in pool.txs && e.tx in pool.cached && e.tx !in inBlock && IsBestChoice(pool, mi, mod, e)
      requires e == if e.tx in mod then mod[e.tx] else pool.cached[e.tx]
      ensures TooLittle(e, failed, givenUp)
    {
      hide Valid, WithinLimits, AllFinal, AllRefused, Tracked, Dated, Covered, Built, Rounds, AllGreedy, Greedy;
      hide Pool.Valid, IsBestChoice, NoLeaks;
      ValidPool();
      if NoLeaks(pool) { PickIsGreedy(pool, inBlock, mi, mod, made, failed, givenUp.Keys, e); }
    }

    lemma PassOver(start: set<TxId>, mi: nat, mod: ModMap, made: MadeMap, failed: set<TxId>, givenUp: Refusals,
            picks: seq<Pick>)
      requires Selecting(start, mi, mod, made, failed, givenUp, picks) && mi < |pool.byScore|
      requires SkipMapTxEntry(pool.byScore[mi], mod, failed)
      ensures Selecting(start, mi + 1, mod, made, failed, givenUp, picks)
    {
      hide Valid, WithinLimits, AllFinal, AllRefused, Tracked, Dated, Covered, Built, Rounds, AllGreedy;
      StillCovered(pool, inBlock, mi, mod, givenUp.Keys, inBlock, mi + 1, mod, givenUp.Keys);
    }

    lemma GiveUpIndexed(start: set<TxId>, mi: nat, mod: ModMap, made: MadeMap, failed: set<TxId>, givenUp: Refusals,
            picks: seq<Pick>, e: ModEntry)
      requires Selecting(start, mi, mod, made, failed, givenUp, picks) && mi < |pool.byScore|
      requires pool.byScore[mi] == e.tx
      requires Refused(pool, nBlockMaxWeight, isFinal, Refusal(inBlock, e))
      ensures Selecting(start, mi + 1, mod, made, failed, givenUp[e.tx := Refusal(inBlock, e)], picks)
    {
      hide Valid, WithinLimits, AllFinal, RefusedBy, Refused, Tracked, Dated, Covered, Built, Rounds, AllGreedy;
      var givenUp' := givenUp[e.tx := Refusal(inBlock, e)];
      GiveUp(pool, nBlockMaxWeight, isFinal, inBlock, givenUp, e);
      StillCovered(pool, inBlock, mi, mod, givenUp.Keys, inBlock, mi + 1, mod, givenUp'.Keys);
    }

    lemma GiveUpModified(start: set<TxId>, mi: nat, mod: ModMap, made: MadeMap, failed: set<TxId>, givenUp: Refusals,
            picks: seq<Pick>, e: ModEntry)
      requires Selecting(start, mi, mod, made, failed, givenUp, picks) && e.tx in mod
      requires Refused(pool, nBlockMaxWeight, isFinal, Refusal(inBlock, e))
      ensures Selecting(start, mi, mod - {e.tx}, made, failed + {e.tx}, givenUp[e.tx := Refusal(inBlock, e)], picks)
      ensures |mod - {e.tx}| < |mod|
    {
      hide Valid, WithinLimits, AllFinal, RefusedBy, Refused, Tracked, Dated, Covered, Built, Rounds, AllGreedy;
      var t, givenUp' := e.tx, givenUp[e.tx := Refusal(inBlock, e)];
      GiveUp(pool, nBlockMaxWeight, isFinal, inBlock, givenUp, e);
      Dropped(pool, inBlock, mod, made, failed, t);
      DatedPart(pool, inBlock, Rounds(pool, start, picks), mod, made, failed, {t}, failed + {t});
      StillCovered(pool, inBlock, mi, mod, givenUp.Keys, inBlock, mi, mod - {t}, givenUp'.Keys);
      assert (mod - {t}).Keys == mod.Keys - {t};
    }

    lemma RefusedHere(e: ModEntry)
      requires Valid() && Over(pool, inBlock, e)
      requires !TestPackage(e.size, e.sigOps) || exists t | t in pool.Remaining(e.tx, inBlock) :: !isFinal(t)
      ensures Refused(pool, nBlockMaxWeight, isFinal, Refusal(inBlock, e))
    {
      hide Pool.Valid, Assembled, Sum, Over;
    }

    /** Includes the package of `e` if it fits and is final; `mi'` is where the index goes on. */
    method Attempt(e: ModEntry, ghost mi: nat, ghost mi': nat, mod: ModMap, ghost start: set<TxId>, ghost made: MadeMap,
                   ghost failed: set<TxId>, ghost givenUp: Refusals, ghost picks: seq<Pick>)
      returns (verdict: Verdict, mod': ModMap, nUpdated: int, ghost made': MadeMap, ghost picks': seq<Pick>)
      requires Selecting(start, mi, mod, made, failed, givenUp, picks)
      requires mi <= mi' <= |pool.byScore| && mi' <= mi + 1 && (mi < mi' ==> pool.byScore[mi] == e.tx)
      requires e.tx in pool.txs && e.tx in pool.cached && e.tx !in inBlock
      requires e == if e.tx in mod then mod[e.tx] else pool.cached[e.tx]
      requires Over(pool, inBlock, e) && IsBestChoice(pool, mi, mod, e)
      modifies this
      ensures (verdict == TooBig || verdict == NotFinal || verdict == Included) && old(vtx) <= vtx
      ensures verdict == Included ==>
        && Selecting(start, mi', mod', made', failed, givenUp, picks')
        && old(inBlock) < inBlock && |picks'| == |picks| + 1
      ensures verdict != Included ==>
        && Selecting(start, mi, mod, made, failed, givenUp, picks) && inBlock == old(inBlock)
        && mod' == mod && made' == made && picks' == picks
        && Refused(pool, nBlockMaxWeight, isFinal, Refusal(inBlock, e))
      ensures nUpdated == Updates(pool, picks') - Updates(pool, picks)
    {
      hide Valid, WithinLimits, AllFinal, RefusedBy, Refused, Tracked, Dated, Dating, Covered, Built, Rounds;
      hide AllGreedy, Charged;
      hide Over, Pool.Valid, Pool.Closed, IsBestChoice, Updates, Corrections, Sum;
      mod', nUpdated, made', picks' := mod, 0, made, picks;
      ValidPool();
      if !TestPackage(e.size, e.sigOps) {
        RefusedHere(e);
        verdict := TooBig;
        return;
      }
      ghost var pick := Pick(inBlock, e, givenUp.Keys, failed);
      GreedyMore(pool, mi, mod, made, e, picks, pick);
      PickIsCharged(pool, Rounds(pool, start, picks), mod, made, pick);
      BuiltMore(pool, start, picks, pick);
      var included, updated, n, updatedMade := IncludePackage(e, mod, made, failed);
      if included {
        DatedTaken(start, mod, made, failed, givenUp, picks, pick, updated, updatedMade);
        StillCovered(pool, pick.block, mi, mod, givenUp.Keys, inBlock, mi', updated, givenUp.Keys);
        StillRefused(pool, nBlockMaxWeight, isFinal, pick.block, inBlock, givenUp);
        verdict, mod', nUpdated, made', picks' := Included, updated, n, updatedMade, picks + [pick];
      } else {
        RefusedHere(e);
        verdict := NotFinal;
      }
    }

    lemma DatedTaken(start: set<TxId>, mod: ModMap, made: MadeMap, failed: set<TxId>, givenUp: Refusals,
            picks: seq<Pick>, pick: Pick, updated: ModMap, made': MadeMap)
      requires Dated(pool, pick.block, Rounds(pool, start, picks), mod, made, failed)
      requires var package := pool.Remaining(pick.e.tx, pick.block);
        && Dating(pool, pick.block, package, package, mod - package, made, updated, made')
        && Tracked(pool, pick.block + package, {}, updated, made', failed)
        && Rounds(pool, start, picks + [pick]) == Rounds(pool, start, picks) + [package]
      ensures Dated(pool, pick.block + pool.Remaining(pick.e.tx, pick.block), Rounds(pool, start, picks + [pick]),
                    updated, made', failed)
    {
      hide Dated, Dating, Tracked, Rounds;
      var package, rounds := pool.Remaining(pick.e.tx, pick.block), Rounds(pool, start, picks);
      DatedPart(pool, pick.block, rounds, mod, made, failed, package, failed);
      DatedMore(pool, pick.block, package, rounds, mod - package, made, updated, made', failed);
    }

    /** Fills the block with packages, best fee rate first. Whatever the pool, the limits and the
        figures, the block stays closed under ancestors, ordered, within the limits and exactly
        accounted for; each pick is charged as FeesExactIff says; if no priority can leak, every pick is the best
        one left; and what is left out was refused, paid too little, or met a nearly full block. */
    method AddPackageTxs() returns (nPackagesSelected: int, nDescendantsUpdated: int, ghost picks: seq<Pick>,
            ghost givenUp: Refusals, ghost end: End)
      requires Valid() && WithinLimits() && AllFinal()
      modifies this
      ensures Valid() && WithinLimits() && AllFinal() && old(vtx) <= vtx
      ensures nPackagesSelected == |picks| && Built(pool, old(inBlock), picks, inBlock)
      ensures nDescendantsUpdated == Updates(pool, picks)
      ensures AllGreedy(pool, picks) && AllRefused(givenUp)
      ensures match end
        case Exhausted => forall t | t in pool.txs :: t in inBlock || t in givenUp
        case PaysTooLittle(e, failed) => TooLittle(e, failed, givenUp)
        case NearlyFull => nBlockWeight > nBlockMaxWeight - 4000
    {
      hide *;
      ValidPool();
      NothingTracked(pool, inBlock);
      var mod, _, made := UpdatePackagesForAdded(inBlock, map[], {}, map[], {});
      assert {} + inBlock == inBlock;
      var failed: set<TxId> := {};
      var mi: nat, nConsecutiveFailed := 0, 0;
      nPackagesSelected, nDescendantsUpdated, picks, givenUp := 0, 0, [], map[];
      SelectingStart(mod, made);
      BuiltNothing(pool, inBlock);
      while mi < |pool.byScore| || mod != map[]
        invariant Selecting(old(inBlock), mi, mod, made, failed, givenUp, picks)
        invariant old(vtx) <= vtx && nPackagesSelected == |picks| && nDescendantsUpdated == Updates(pool, picks)
        decreases pool.txs.Keys - inBlock, |pool.byScore| - mi, |mod|
      {
        var verdict, n;
        ghost var e;
        verdict, mi, mod, failed, n, made, givenUp, picks, e :=
          Consider(mi, mod, failed, old(inBlock), made, givenUp, picks);
        nDescendantsUpdated := nDescendantsUpdated + n;
        SelectingEnd(old(inBlock), mi, mod, made, failed, givenUp, picks);
        match verdict
        case BelowMinFee =>
          end := PaysTooLittle(e, failed);
          return;
        case TooBig =>
          nConsecutiveFailed := nConsecutiveFailed + 1;
          if nConsecutiveFailed > MAX_CONSECUTIVE_FAILURES && nBlockWeight > nBlockMaxWeight - 4000 {
            end := NearlyFull;
            return;
          }
        case Included =>
          nConsecutiveFailed, nPackagesSelected := 0, nPackagesSelected + 1;
        case _ =>
      }
      end := Exhausted;
      SelectingEnd(old(inBlock), mi, mod, made, failed, givenUp, picks);
      AllLookedAt(pool, inBlock, mod, givenUp.Keys);
    }

    lemma SelectingStart(mod: ModMap, made: MadeMap)
      requires Valid() && WithinLimits() && AllFinal()
      requires Tracked(pool, inBlock, {}, mod, made, {}) && Dating(pool, {}, inBlock, inBlock, map[], map[], mod, made)
      ensures Selecting(inBlock, 0, mod, made, {}, map[], [])
    {
      hide Valid, WithinLimits, AllFinal, Tracked, Dated, Dating, Covered, Built, Rounds, AllGreedy;
      var none: Refusals := map[];
      assert none.Keys == {};
      ValidPool();
      DatedStart(pool, inBlock, mod, made);
      BuiltNothing(pool, inBlock);
      AllToLookAt(pool, inBlock, mod);
      NoneYet(pool);
    }

    lemma SelectingEnd(start: set<TxId>, mi: nat, mod: ModMap, made: MadeMap, failed: set<TxId>, givenUp: Refusals,
            picks: seq<Pick>)
      requires Selecting(start, mi, mod, made, failed, givenUp, picks)
      ensures Valid() && WithinLimits() && AllFinal() && AllRefused(givenUp) && mi <= |pool.byScore|
      ensures Covered(pool, inBlock, mi, mod, givenUp.Keys) && Built(pool, start, picks, inBlock)
      ensures AllGreedy(pool, picks)
      ensures inBlock <= pool.txs.Keys
    {
      hide WithinLimits, AllFinal, AllRefused, Tracked, Dated, Covered, Built, Rounds, AllGreedy;
      BlockInPool();
    }

    lemma Unfilled()
      requires Valid() && vtx == []
      ensures inBlock == {} && nBlockWeight == 4000 && nBlockSigOpsCost == 400
    {
      hide Pool.Valid;
      forall t ensures t !in inBlock { assert t in inBlock <==> t in vtx; }
      SumNothing(pool.Weight());
      SumNothing(pool.SigOps());
    }

    lemma BlockInPool()
      requires Valid()
      ensures inBlock <= pool.txs.Keys
    {
    }

    predicate SkipMapTxEntry(t: TxId, mod: ModMap, failed: set<TxId>)
      reads this
    {
      t in mod || t in inBlock || t in failed
    }

    lemma ValidPool()
      requires Valid()
      ensures pool.Valid() && pool.Closed(inBlock)
      ensures nBlockWeight == 4000 + Sum(pool.Weight(), inBlock)
      ensures nBlockSigOpsCost == 400 + Sum(pool.SigOps(), inBlock)
    {
    }
  }

  lemma Taken(pool: Pool, block: set<TxId>, mod: ModMap, made: MadeMap, failed: set<TxId>, package: set<TxId>)
    requires Tracked(pool, block, {}, mod, made, failed)
    ensures Tracked(pool, block, package, mod - package, made, failed)
  {
    hide Law;
    forall t | t in pool.txs ensures TrackedAt(pool, block, package, mod - package, made, failed, t) {
      assert TrackedAt(pool, block, {}, mod, made, failed, t);
    }
  }

  lemma AmongAre(pool: Pool, added: set<TxId>, it: TxId, among: set<TxId>)
    requires pool.cached.Keys == pool.txs.Keys
    requires forall t :: t in among <==> t in pool.cached && it in pool.Ancestors(t) && t !in added
    ensures forall t :: t in among <==> t in pool.txs && it in pool.Ancestors(t) && t !in added
    ensures TouchedBy(pool, added)(it) == |among|
  {
    assert among == Touched(pool, added, it);
  }

  lemma CorrectionsAre(pool: Pool, added: set<TxId>)
    ensures Corrections(pool, added) == Sum(TouchedBy(pool, added), added)
  {
  }

  /** In a sorted package the ancestors of the next transaction are in the block or came before it. */
  lemma NextInOrder(pool: Pool, prior: set<TxId>, package: set<TxId>, sorted: seq<TxId>, i: nat, done: set<TxId>)
    requires pool.Valid() && pool.Closed(prior + package) && package !! prior && i < |sorted|
    requires forall t :: t in package <==> t in sorted
    requires forall i, j | 0 <= i < j < |sorted| :: Precedes(pool, sorted[i], sorted[j])
    requires forall t :: t in done <==> t in sorted[..i]
    ensures sorted[i] in pool.txs && sorted[i] !in prior + done && pool.Ancestors(sorted[i]) <= prior + done
  {
    hide Pool.Valid, Precedes;
    var t := sorted[i];
    assert t in package;
    NotBeforeSelf(pool, t);
    forall a | a in pool.Ancestors(t) ensures a in prior + done {
      AncestorPrecedes(pool, a, t);
      NotBothWays(pool, a, t);
      if a !in prior {
        var k :| 0 <= k < |sorted| && sorted[k] == a;
        assert k < i;
      }
    }
  }

  lemma NotBeforeSelf(pool: Pool, t: TxId)
    ensures !Precedes(pool, t, t)
  {
  }

  lemma NotBothWays(pool: Pool, a: TxId, b: TxId)
    requires Precedes(pool, a, b)
    ensures !Precedes(pool, b, a)
  {
  }

  /** Nothing still to be looked at is better than `e`. */
  ghost predicate IsBestChoice(pool: Pool, mi: nat, mod: ModMap, e: ModEntry) {
    && (forall t | t in mod :: !Better(mod[t], e))
    && (forall j | mi <= j < |pool.byScore| :: !Better(pool.Whole(pool.byScore[j]), e))
  }

  lemma ChooseModified(pool: Pool, mi: nat, mod: ModMap, modit: TxId)
    requires pool.Valid() && IsBest(mod, mod.Keys, modit)
    requires mod[modit].size > 0 && forall t | t in pool.cached :: pool.cached[t].size > 0
    requires mi < |pool.byScore| ==>
      pool.byScore[mi] in pool.cached && Better(mod[modit], pool.cached[pool.byScore[mi]])
    ensures IsBestChoice(pool, mi, mod, mod[modit])
  {
    hide Better, Pool.Acyclic;
    forall j | mi <= j < |pool.byScore| ensures !Better(pool.Whole(pool.byScore[j]), mod[modit]) {
      var next := pool.cached[pool.byScore[mi]];
      BetterAsymmetric(mod[modit], next);
      if j > mi { BetterTransitive(mod[modit], next, pool.cached[pool.byScore[j]]); }
    }
  }

  lemma IndexSorted(pool: Pool, mi: nat)
    requires pool.Valid() && mi < |pool.byScore| && pool.byScore[mi] in pool.cached
    ensures forall j | mi <= j < |pool.byScore| :: !Better(pool.Whole(pool.byScore[j]), pool.cached[pool.byScore[mi]])
  {
    hide Better, Pool.Valid, Pool.Whole;
    NotBetterThanSelf(pool.cached[pool.byScore[mi]]);
    PoolKeys(pool);
    PackageFacts(pool, pool.byScore[mi]);
    IndexOrder(pool);
  }

  lemma IndexOrder(pool: Pool)
    requires pool.Valid()
    ensures forall i, j | 0 <= i < j < |pool.byScore| ::
      !Better(pool.Whole(pool.byScore[j]), pool.Whole(pool.byScore[i]))
  {
    hide Better, Pool.Acyclic, Pool.Figured, Pool.Whole;
  }

  lemma ChooseIndexed(pool: Pool, mi: nat, mod: ModMap)
    requires pool.Valid() && mi < |pool.byScore| && pool.byScore[mi] in pool.cached
    requires forall t | t in mod :: mod[t].size > 0
    requires forall t | t in pool.cached :: pool.cached[t].size > 0
    requires mod == map[] || exists modit ::
      IsBest(mod, mod.Keys, modit) && !Better(mod[modit], pool.cached[pool.byScore[mi]])
    ensures IsBestChoice(pool, mi, mod, pool.cached[pool.byScore[mi]])
  {
    hide Better, Pool.Valid;
    IndexSorted(pool, mi);
    var next := pool.cached[pool.byScore[mi]];
    if mod != map[] {
      var modit :| IsBest(mod, mod.Keys, modit) && !Better(mod[modit], next);
      forall t | t in mod ensures !Better(mod[t], next) {
        BetterTransitive(next, mod[modit], mod[t]);
      }
    }
  }

  lemma Positive(pool: Pool, block: set<TxId>, mod: ModMap, made: MadeMap, failed: set<TxId>)
    requires pool.Valid() && Tracked(pool, block, {}, mod, made, failed)
    ensures forall t | t in mod :: mod[t].tx == t && t in pool.txs && mod[t].size > 0
    ensures forall t | t in pool.cached :: pool.cached[t].tx == t && pool.cached[t].size > 0
  {
    forall t | t in mod ensures mod[t].tx == t && t in pool.txs && mod[t].size > 0 {
      assert TrackedAt(pool, block, {}, mod, made, failed, t);
      LawIsOver(pool, block, mod[t], made[t]);
      SizePositive(pool, block, mod[t]);
    }
    forall t | t in pool.cached ensures pool.cached[t].tx == t && pool.cached[t].size > 0 {
      WholeIsOver(pool, {}, t);
      SizePositive(pool, {}, pool.cached[t]);
    }
  }
}
