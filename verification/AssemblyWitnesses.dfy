/** Runs of the block assembler in which its figures go wrong. */
module AssemblyWitnesses {
  import opened Mempool
  import opened BlockAssembly

  lemma SumTwo(f: TxId -> int, a: TxId, b: TxId)
    requires a != b
    ensures Sum(f, {a}) == f(a) && Sum(f, {a, b}) == f(a) + f(b)
  {
    SumNothing(f);
    SumAdd(f, {}, a);
    SumAdd(f, {a}, b);
    assert {} + {a} == {a} && {a} + {b} == {a, b};
  }

  lemma SumThree(f: TxId -> int)
    ensures Sum(f, {1, 2, 3}) == f(1) + f(2) + f(3)
  {
    SumTwo(f, 1, 2);
    SumAdd(f, {1, 2}, 3);
    assert {1, 2} + {3} == {1, 2, 3};
  }

  /** 2 descends from 1, and 3 from both; 2 was given a priority delta of 5. */
  function LeakyPool(): Pool {
    var plain := Tx(1, 4, 0, 10, 10);
    Pool(map[1 := plain, 2 := plain.(modFee := 15), 3 := plain], map[1 := {}, 2 := {1}, 3 := {1, 2}],
         map[1 := ModEntry(1, 1, 10, 0), 2 := ModEntry(2, 2, 25, 0), 3 := ModEntry(3, 3, 35, 0)], [2, 3, 1])
  }

  lemma WholeOf(pool: Pool)
    requires 1 in pool.ancestors && 2 in pool.ancestors && 3 in pool.ancestors
    requires pool.ancestors[1] == {} && pool.ancestors[2] <= {1} && pool.ancestors[3] == {1, 2}
    ensures pool.Whole(1) == ModEntry(1, pool.At(1).size, pool.At(1).modFee, pool.At(1).sigOps)
    ensures pool.ancestors[2] == {} ==>
      pool.Whole(2) == ModEntry(2, pool.At(2).size, pool.At(2).modFee, pool.At(2).sigOps)
    ensures pool.ancestors[2] == {1} ==>
      pool.Whole(2) == ModEntry(2, pool.At(1).size + pool.At(2).size, pool.At(1).modFee + pool.At(2).modFee,
                                pool.At(1).sigOps + pool.At(2).sigOps)
    ensures pool.Whole(3) == ModEntry(3, pool.At(1).size + pool.At(2).size + pool.At(3).size,
                                      pool.At(1).modFee + pool.At(2).modFee + pool.At(3).modFee,
                                      pool.At(1).sigOps + pool.At(2).sigOps + pool.At(3).sigOps)
  {
    hide Sum;
    assert pool.Package(1) == {1} && pool.Package(3) == {1, 2, 3};
    assert pool.ancestors[2] == {} ==> pool.Package(2) == {2};
    assert pool.ancestors[2] == {1} ==> pool.Package(2) == {1, 2};
    forall f: TxId -> int ensures Sum(f, {1}) == f(1) && Sum(f, {2}) == f(2) && Sum(f, {1, 2}) == f(1) + f(2) {
      SumTwo(f, 1, 2);
      SumTwo(f, 2, 1);
    }
    forall f: TxId -> int ensures Sum(f, {1, 2, 3}) == f(1) + f(2) + f(3) { SumThree(f); }
  }

  /** What is in a pool of three transactions, and its index. */
  ghost predicate Holds(pool: Pool, ancestorsOf2: set<TxId>, order: seq<TxId>) {
    && pool.txs.Keys == pool.ancestors.Keys == pool.cached.Keys == {1, 2, 3}
    && pool.ancestors[1] == {} && pool.ancestors[2] == ancestorsOf2 <= {1} && pool.ancestors[3] == {1, 2}
    && pool.byScore == order
  }

  ghost predicate Sized(tx: Tx) { tx.size > 0 && tx.sigOps == 0 && tx.weight == 4 * tx.size }

  lemma SmallPool(pool: Pool, ancestorsOf2: set<TxId>, x: TxId, y: TxId, z: TxId)
    requires Holds(pool, ancestorsOf2, [x, y, z]) && {x, y, z} == {1, 2, 3}
    requires Sized(pool.At(1)) && Sized(pool.At(2)) && Sized(pool.At(3))
    requires pool.cached[1] == pool.Whole(1) && pool.cached[2] == pool.Whole(2) && pool.cached[3] == pool.Whole(3)
    requires Better(pool.cached[x], pool.cached[y]) && Better(pool.cached[x], pool.cached[z])
    requires Better(pool.cached[y], pool.cached[z])
    ensures pool.Valid()
  {
    hide Pool.Acyclic, Pool.Figured, Pool.Indexed, Better, Pool.Whole;
    BetterAsymmetric(pool.cached[x], pool.cached[y]);
    BetterAsymmetric(pool.cached[x], pool.cached[z]);
    BetterAsymmetric(pool.cached[y], pool.cached[z]);
    SmallAcyclic(pool, ancestorsOf2, [x, y, z]);
    SmallFigured(pool, ancestorsOf2, [x, y, z]);
    SmallIndexed(pool, x, y, z);
  }

  lemma SmallAcyclic(pool: Pool, ancestorsOf2: set<TxId>, order: seq<TxId>)
    requires Holds(pool, ancestorsOf2, order)
    ensures pool.Acyclic()
  {
    forall t, a | t in pool.txs && a in pool.ancestors[t] ensures a == 1 || (a == 2 && t == 3) {
      if t == 2 { assert a in {1}; }
    }
  }

  lemma SmallFigured(pool: Pool, ancestorsOf2: set<TxId>, order: seq<TxId>)
    requires Holds(pool, ancestorsOf2, order)
    requires Sized(pool.At(1)) && Sized(pool.At(2)) && Sized(pool.At(3))
    requires pool.cached[1] == pool.Whole(1) && pool.cached[2] == pool.Whole(2) && pool.cached[3] == pool.Whole(3)
    ensures pool.Figured()
  {
    hide Pool.Whole;
    forall t | t in pool.txs
      ensures pool.cached[t] == pool.Whole(t)
      ensures pool.txs[t].size > 0 && pool.txs[t].sigOps >= 0 && 0 <= pool.txs[t].weight <= 4 * pool.txs[t].size
    {
      assert t == 1 || t == 2 || t == 3;
      assert pool.txs[t] == pool.At(t);
    }
  }

  lemma SmallIndexed(pool: Pool, x: TxId, y: TxId, z: TxId)
    requires pool.byScore == [x, y, z] && pool.txs.Keys == {x, y, z}
    requires !Better(pool.Whole(y), pool.Whole(x)) && !Better(pool.Whole(z), pool.Whole(x))
    requires !Better(pool.Whole(z), pool.Whole(y))
    ensures pool.Indexed()
  {
    hide Better, Pool.Whole;
    forall t ensures t in pool.byScore <==> t in pool.txs { assert t in [x, y, z] <==> t in {x, y, z}; }
    forall i, j | 0 <= i < j < |pool.byScore|
      ensures !Better(pool.Whole(pool.byScore[j]), pool.Whole(pool.byScore[i]))
    {
      assert (i == 0 && (j == 1 || j == 2)) || (i == 1 && j == 2);
    }
  }

  lemma LeakyPoolHolds()
    ensures Holds(LeakyPool(), {1}, [2, 3, 1])
    ensures LeakyPool().At(1) == LeakyPool().At(3) == Tx(1, 4, 0, 10, 10) && LeakyPool().At(2) == Tx(1, 4, 0, 10, 15)
    ensures LeakyPool().cached[1] == ModEntry(1, 1, 10, 0) && LeakyPool().cached[2] == ModEntry(2, 2, 25, 0)
    ensures LeakyPool().cached[3] == ModEntry(3, 3, 35, 0)
  {
  }

  lemma LeakyPoolValid()
    ensures LeakyPool().Valid()
  {
    hide LeakyPool, Pool.Valid, Pool.Whole, Pool.At;
    LeakyPoolHolds();
    var pool := LeakyPool();
    WholeOf(pool);
    SmallPool(pool, {1}, 2, 3, 1);
  }

  /** The fees do go wrong: once the package of 2 is in the block, those of 3 still carry the priority of 2. */
  method PriorityLeaks() returns (a: BlockAssembler, mod: ModMap)
    ensures a.Valid() && a.WithinLimits() && a.pool == LeakyPool() && a.inBlock == {1, 2} && 3 in mod
    ensures mod[3].fees == Actual(a.pool, a.inBlock, 3).fees + 5
  {
    hide *;
    LeakyPoolHolds();
    LeakyPoolValid();
    a := new BlockAssembler(LeakyPool(), 8000000, 8000, _ => 0, _ => true);
    a.Unfilled();
    NothingTracked(a.pool, {});
    WholeIsOver(a.pool, {}, 2);
    LeakyPackage(a);
    ghost var none: ModMap := map[];
    assert {} + {1, 2} == {1, 2} && none - {1, 2} == none;
    var included, updated, _, made := a.IncludePackage(a.pool.cached[2], map[], map[], {});
    LeakyEntry(updated, made);
    mod := updated;
  }

  lemma LeakyPackage(a: BlockAssembler)
    requires a.pool == LeakyPool() && a.nBlockMaxWeight == 8000 && a.nBlockWeight == 4000 && a.nBlockSigOpsCost == 400
    requires forall t :: a.isFinal(t)
    ensures 2 in a.pool.txs && 2 in a.pool.cached && a.pool.Remaining(2, {}) == {1, 2}
    ensures a.pool.cached[2].tx == 2 && a.TestPackage(a.pool.cached[2].size, a.pool.cached[2].sigOps)
  {
    LeakyPoolHolds();
    hide LeakyPool;
  }

  lemma LeakyEntry(mod: ModMap, made: MadeMap)
    requires var pool := LeakyPool(); pool.Valid() && Tracked(pool, {1, 2}, {}, mod, made, {})
    requires Dating(LeakyPool(), {}, {1, 2}, {1, 2}, map[], map[], mod, made)
    ensures 3 in mod && mod[3].fees == Actual(LeakyPool(), {1, 2}, 3).fees + 5
  {
    hide Pool.Valid, Actual, Sum, Law;
    var pool := LeakyPool();
    assert TrackedAt(pool, {1, 2}, {}, mod, made, {}, 3);
    assert pool.Ancestors(3) * {1, 2} == {1, 2};
    RecreatedExcess(pool, {1, 2}, mod, made, {}, 3);
    assert made[3].first == 1;
    assert Later(pool, {1, 2}, 3, made[3]) == {2};
    SumTwo(pool.Delta(), 2, 1);
    SumNothing(pool.ModFee());
  }

  /** 3 descends from 1 and from 2 and is too big for the block. */
  function BulkyPool(): Pool {
    Pool(map[1 := Tx(1, 4, 0, 100, 100), 2 := Tx(1, 4, 0, 1, 1), 3 := Tx(2000, 8000, 0, 100000, 100000)],
         map[1 := {}, 2 := {}, 3 := {1, 2}],
         map[1 := ModEntry(1, 1, 100, 0), 2 := ModEntry(2, 1, 1, 0), 3 := ModEntry(3, 2002, 100101, 0)], [1, 3, 2])
  }

  lemma BulkyPoolHolds()
    ensures Holds(BulkyPool(), {}, [1, 3, 2])
    ensures BulkyPool().At(1) == Tx(1, 4, 0, 100, 100) && BulkyPool().At(2) == Tx(1, 4, 0, 1, 1)
    ensures BulkyPool().At(3) == Tx(2000, 8000, 0, 100000, 100000)
    ensures BulkyPool().cached[1] == ModEntry(1, 1, 100, 0) && BulkyPool().cached[2] == ModEntry(2, 1, 1, 0)
    ensures BulkyPool().cached[3] == ModEntry(3, 2002, 100101, 0)
  {
  }

  lemma BulkyPoolValid()
    ensures BulkyPool().Valid()
  {
    hide BulkyPool, Pool.Valid, Pool.Whole, Pool.At;
    BulkyPoolHolds();
    var pool := BulkyPool();
    WholeOf(pool);
    SmallPool(pool, {}, 1, 3, 2);
  }

  lemma BulkyPackage(a: BlockAssembler, t: TxId, block: set<TxId>)
    requires a.pool == BulkyPool() && a.nBlockMaxWeight == 8000 && forall t :: a.isFinal(t)
    requires a.nBlockWeight <= 4004 && a.nBlockSigOpsCost == 400 && (t == 1 || t == 2) && t !in block
    ensures t in a.pool.txs && t in a.pool.cached && a.pool.Remaining(t, block) == {t}
    ensures a.pool.cached[t].tx == t && a.TestPackage(a.pool.cached[t].size, a.pool.cached[t].sigOps)
  {
    BulkyPoolHolds();
    hide BulkyPool;
  }

  lemma BulkyWeight(a: BlockAssembler)
    requires a.Valid() && a.pool == BulkyPool() && a.inBlock == {1}
    ensures a.nBlockWeight == 4004 && a.nBlockSigOpsCost == 400
  {
    hide Pool.Valid, Sum;
    SumTwo(a.pool.Weight(), 1, 2);
    SumTwo(a.pool.SigOps(), 1, 2);
  }

  lemma BulkyFirst(mod: ModMap, made: MadeMap)
    requires var pool := BulkyPool(); pool.Valid() && Tracked(pool, {1}, {}, mod, made, {})
    ensures 3 in mod && mod[3].size == 2001
  {
    hide Pool.Valid, Sum, Law;
    var pool := BulkyPool();
    assert TrackedAt(pool, {1}, {}, mod, made, {}, 3);
    assert 1 in pool.Ancestors(3) * {1};
    RecreatedExcess(pool, {1}, mod, made, {}, 3);
    assert pool.Remaining(3, {1}) == {2, 3};
    SumTwo(pool.Size(), 2, 3);
  }

  lemma BulkyAgain(was: ModMap, wasMade: MadeMap, mod: ModMap, made: MadeMap)
    requires var pool := BulkyPool(); pool.Valid() && Tracked(pool, {1, 2}, {}, mod, made, {3})
    requires 3 !in was && Dating(BulkyPool(), {1}, {2}, {2}, was, wasMade, mod, made)
    ensures 3 in mod && mod[3].size == Actual(BulkyPool(), {1, 2}, 3).size + 1
    ensures mod[3].fees == Actual(BulkyPool(), {1, 2}, 3).fees + 100
  {
    hide Pool.Valid, Actual, Sum, Law;
    var pool := BulkyPool();
    assert 2 in pool.Ancestors(3) * {2};
    assert 3 in mod && MadeIn(pool, {1}, {2}, 3, made[3]);
    RecreatedExcess(pool, {1, 2}, mod, made, {3}, 3);
    assert made[3].missed == {1} && made[3].first == 2;
    assert Later(pool, {1, 2}, 3, made[3]) == {};
    SumTwo(pool.Size(), 1, 2);
    SumTwo(pool.ModFee(), 1, 2);
    SumNothing(pool.Delta());
  }

  /** Figures of all kinds go wrong once an entry is made anew: with 1 in the block, 3 is too big and given up;
      with 2 in the block it gets an entry again, which still counts 1. */
  method RecreatedTooLarge() returns (a: BlockAssembler, mod: ModMap)
    ensures a.Valid() && a.WithinLimits() && a.pool == BulkyPool() && a.inBlock == {1, 2} && 3 in mod
    ensures mod[3].size == Actual(a.pool, a.inBlock, 3).size + 1
    ensures mod[3].fees == Actual(a.pool, a.inBlock, 3).fees + 100
  {
    hide *;
    BulkyPoolHolds();
    BulkyPoolValid();
    a := new BlockAssembler(BulkyPool(), 8000000, 8000, _ => 0, _ => true);
    a.Unfilled();
    NothingTracked(a.pool, {});
    WholeIsOver(a.pool, {}, 1);
    BulkyPackage(a, 1, {});
    assert {} + {1} == {1};
    var included, first, _, made := a.IncludePackage(a.pool.cached[1], map[], map[], {});
    BulkyWeight(a);
    BulkyFirst(first, made);
    assert !a.TestPackage(first[3].size, first[3].sigOps) by { TooBulky(a, first[3]); }
    Dropped(a.pool, a.inBlock, first, made, {}, 3);
    WholeIsOver(a.pool, a.inBlock, 2);
    BulkyPackage(a, 2, {1});
    assert {1} + {2} == {1, 2} && {} + {3} == {3};
    var again, second, _, made' := a.IncludePackage(a.pool.cached[2], first - {3}, made, {3});
    BulkyAgain(first - {3} - {2}, made, second, made');
    mod := second;
  }

  lemma TooBulky(a: BlockAssembler, e: ModEntry)
    requires a.nBlockMaxWeight == 8000 && a.nBlockWeight == 4004 && e.size == 2001
    ensures !a.TestPackage(e.size, e.sigOps)
  {
  }
}
