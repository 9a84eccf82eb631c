/** Conservation of money: transactions move value and burn fees, blocks create at most the subsidy, and so the coins
    of a valid branch never exceed the sum of the subsidies below its tip. */
module Supply {
  import opened Basics
  import opened Transactions
  import opened CoinsRules
  import opened Ledger
  import opened BlockRules
  import opened BlockTree
  import opened Subsidy

  /** The value of the unspent outputs among vout. */
  function LiveSum(vout: seq<TxOut>): int {
    if vout == [] then 0
    else
      var last := vout[|vout| - 1];
      LiveSum(vout[..|vout| - 1]) + (if last.IsNull() then 0 else last.nValue)
  }

  /** The value of all unspent outputs. */
  ghost function Total(m: CoinMap): int
    decreases |m|
  {
    if m == map[] then 0
    else
      var id :| id in m;
      LiveSum(m[id].vout) + Total(m - {id})
  }

  ghost function Worth(m: CoinMap, id: Hash): int {
    if id in m then LiveSum(m[id].vout) else 0
  }

  /** No unspent output has a negative value. */
  ghost predicate NonNegative(m: CoinMap) {
    forall id, i :: id in m && 0 <= i < |m[id].vout| ==> m[id].vout[i].IsNull() || 0 <= m[id].vout[i].nValue
  }

  // ---------- sums over a map

  lemma {:induction false} TotalRemove(m: CoinMap, id: Hash)
    requires id in m
    ensures Total(m) == LiveSum(m[id].vout) + Total(m - {id})
    decreases |m|
  {
    var k :| k in m && Total(m) == LiveSum(m[k].vout) + Total(m - {k});
    if k != id {
      TotalRemove(m - {k}, id);
      TotalRemove(m - {id}, k);
      assert m - {k} - {id} == m - {id} - {k};
    }
  }

  lemma TotalUpdate(m: CoinMap, id: Hash, c: Coins)
    ensures Total(m[id := c]) == Total(m) - Worth(m, id) + LiveSum(c.vout)
  {
    TotalRemove(m[id := c], id);
    assert m[id := c] - {id} == m - {id};
    if id in m {
      TotalRemove(m, id);
    } else {
      assert m - {id} == m;
    }
  }

  lemma {:induction false} PrunedIsWorthless(vout: seq<TxOut>)
    requires forall i :: 0 <= i < |vout| ==> vout[i].IsNull()
    ensures LiveSum(vout) == 0
  {
    if vout != [] {
      PrunedIsWorthless(vout[..|vout| - 1]);
    }
  }

  lemma SameRemove(m1: CoinMap, m2: CoinMap, id: Hash)
    requires Same(m1, m2)
    ensures Same(m1 - {id}, m2 - {id})
  {
    forall k ensures At(m1 - {id}, k) == At(m2 - {id}, k) {
      assert At(m1, k) == At(m2, k);
    }
  }

  /** Entries that are spent to the last output do not count. */
  lemma {:induction false} TotalSame(m1: CoinMap, m2: CoinMap)
    requires Same(m1, m2)
    ensures Total(m1) == Total(m2)
    decreases |m1| + |m2|
  {
    if id :| id in m1.Keys + m2.Keys {
      SameRemove(m1, m2, id);
      assert At(m1, id) == At(m2, id);
      WorthAt(m1, id);
      WorthAt(m2, id);
      TotalWithout(m1, id);
      TotalWithout(m2, id);
      TotalSame(m1 - {id}, m2 - {id});
    }
  }

  lemma WorthAt(m: CoinMap, id: Hash)
    ensures Worth(m, id) == LiveSum(At(m, id).vout)
  {
    if id in m && m[id].IsPruned() {
      PrunedIsWorthless(m[id].vout);
    }
  }

  lemma TotalWithout(m: CoinMap, id: Hash)
    ensures Total(m) == Worth(m, id) + Total(m - {id})
    ensures |m - {id}| == if id in m then |m| - 1 else |m|
  {
    if id in m {
      TotalRemove(m, id);
      assert (m - {id}).Keys == m.Keys - {id};
    } else {
      assert m - {id} == m;
    }
  }

  lemma {:induction false} LiveSumNonNegative(vout: seq<TxOut>)
    requires forall i :: 0 <= i < |vout| ==> vout[i].IsNull() || 0 <= vout[i].nValue
    ensures 0 <= LiveSum(vout)
  {
    if vout != [] {
      LiveSumNonNegative(vout[..|vout| - 1]);
    }
  }

  lemma {:induction false} TotalNonNegative(m: CoinMap)
    requires NonNegative(m)
    ensures 0 <= Total(m)
    decreases |m|
  {
    if m != map[] {
      var k :| k in m && Total(m) == LiveSum(m[k].vout) + Total(m - {k});
      LiveSumNonNegative(m[k].vout);
      TotalNonNegative(m - {k});
    }
  }

  // ---------- one spend, one transaction

  lemma {:induction false} LiveSumTrimmed(vout: seq<TxOut>)
    ensures LiveSum(Trimmed(vout)) == LiveSum(vout)
  {
    if vout != [] && vout[|vout| - 1].IsNull() {
      LiveSumTrimmed(vout[..|vout| - 1]);
    }
  }

  lemma {:induction false} LiveSumUpdate(vout: seq<TxOut>, n: nat)
    requires n < |vout| && !vout[n].IsNull()
    ensures LiveSum(vout[n := NULL_OUT]) == LiveSum(vout) - vout[n].nValue
  {
    var last := |vout| - 1;
    if n < last {
      LiveSumUpdate(vout[..last], n);
      assert vout[n := NULL_OUT][..last] == vout[..last][n := NULL_OUT];
    } else {
      assert vout[n := NULL_OUT][..last] == vout[..last];
    }
  }

  lemma SpendOneTotal(m: CoinMap, o: OutPoint)
    requires Available(m, o)
    ensures Total(SpendOne(m, o).0) == Total(m) - PrevOut(m, o).nValue
  {
    var c := m[o.hash];
    TotalUpdate(m, o.hash, SpentCoins(c, o.n));
    LiveSumTrimmed(c.vout[o.n := NULL_OUT]);
    LiveSumUpdate(c.vout, o.n);
  }

  /** Spending a list of distinct available outputs takes exactly their value out. */
  lemma {:induction false} SpendInputsTotal(m: CoinMap, vin: seq<TxIn>, i: nat)
    requires GoodMap(m) && HaveInputs(m, vin) && DistinctInputs(vin) && i <= |vin|
    ensures Total(SpendInputs(m, vin[..i]).0) == Total(m) - ValueIn(m, vin[..i])
  {
    if i > 0 {
      SpendInputsTotal(m, vin, i - 1);
      var front := vin[..i - 1];
      assert vin[..i][..i - 1] == front;
      NoSpendRefused(m, vin, i - 1);
      SpendInputsFacts(m, front);
      var o := vin[i - 1].prevout;
      assert forall k :: 0 <= k < |front| ==> front[k].prevout != o;
      SpendOneTotal(SpendInputs(m, front).0, o);
    }
  }

  lemma {:induction false} OutputsTotal(vout: seq<TxOut>)
    requires OutputsInRange(vout)
    ensures LiveSum(vout) == ValueSum(vout) && 0 <= ValueSum(vout)
  {
    if vout != [] {
      OutputsTotal(vout[..|vout| - 1]);
    }
  }

  lemma UpdateCoinsTotal(m: CoinMap, tx: Tx, height: int)
    requires GoodMap(m) && WellFormed(tx) && At(m, tx.hash) == EMPTY_COINS
    requires tx.IsCoinBase() || HaveInputs(m, tx.vin)
    ensures Total(UpdateCoins(m, tx, height).0)
            == Total(m) - (if tx.IsCoinBase() then 0 else ValueIn(m, tx.vin)) + ValueSum(tx.vout)
  {
    var spent := if tx.IsCoinBase() then m else SpendInputs(m, tx.vin).0;
    SpendInputsFacts(m, tx.vin);
    assert At(spent, tx.hash) == EMPTY_COINS;
    WorthAt(spent, tx.hash);
    TotalUpdate(spent, tx.hash, FromTx(tx, height));
    OutputsTotal(tx.vout);
    if !tx.IsCoinBase() {
      SpendInputsTotal(m, tx.vin, |tx.vin|);
      assert tx.vin[..|tx.vin|] == tx.vin;
    }
  }

  // ---------- values stay non-negative

  lemma SpendOneNonNegative(m: CoinMap, o: OutPoint)
    requires NonNegative(m)
    ensures NonNegative(SpendOne(m, o).0)
  {
    if Available(m, o) {
      TrimmedMeaning(m[o.hash].vout[o.n := NULL_OUT]);
    }
  }

  lemma {:induction false} SpendInputsNonNegative(m: CoinMap, vin: seq<TxIn>)
    requires NonNegative(m)
    ensures NonNegative(SpendInputs(m, vin).0)
  {
    if vin != [] {
      SpendInputsNonNegative(m, vin[..|vin| - 1]);
      SpendOneNonNegative(SpendInputs(m, vin[..|vin| - 1]).0, vin[|vin| - 1].prevout);
    }
  }

  lemma UpdateCoinsNonNegative(m: CoinMap, tx: Tx, height: int)
    requires NonNegative(m) && WellFormed(tx)
    ensures NonNegative(UpdateCoins(m, tx, height).0)
  {
    SpendInputsNonNegative(m, tx.vin);
    forall i | 0 <= i < |tx.vout| ensures 0 <= tx.vout[i].nValue {
      PrefixInRange(tx.vout, i);
    }
  }

  // ---------- blocks

  /** Fees leave the coins, the coinbase enters them. */
  lemma {:induction false} RunTotal(ctx: Ctx, m: CoinMap, txs: seq<Tx>)
    requires GoodMap(m) && NonNegative(m) && 1 <= ctx.height < INT_LIMIT
    requires Undoable(m, txs) && Run(ctx, m, txs).Some?
    ensures var acc := Run(ctx, m, txs).value;
            && NonNegative(acc.m)
            && 0 <= acc.fees
            && Total(acc.m) + acc.fees == Total(m) + (if txs == [] then 0 else ValueSum(txs[0].vout))
  {
    if txs != [] {
      var front, tx := txs[..|txs| - 1], txs[|txs| - 1];
      UndoableFront(ctx, m, txs);
      RunTotal(ctx, m, front);
      var before := Run(ctx, m, front).value;
      UpdateCoinsTotal(before.m, tx, ctx.height);
      UpdateCoinsNonNegative(before.m, tx, ctx.height);
    }
  }

  /** A block that connects adds at most the subsidy of its parent's height to the money supply. */
  lemma BlockTotal(rules: Rules, m: CoinMap, b: Block, height: nat)
    requires GoodMap(m) && NonNegative(m) && 1 <= height < INT_LIMIT
    requires Connect(rules, m, b, height).Some?
    ensures NonNegative(Connect(rules, m, b, height).value.0)
    ensures Total(Connect(rules, m, b, height).value.0) <= Total(m) + GetBlockValue(height - 1, 0)
  {
    RunTotal(CtxFor(rules, b, height), m, b.vtx);
  }

  /** The coins of a valid branch are worth at most the subsidies of the heights below its tip, which never exceed
      MAX_MONEY. */
  lemma {:induction false} BranchSupply(rules: Rules, genesis: BlockIndex, b: BlockIndex)
    requires Rooted(b, genesis) && BranchValid(rules, genesis, b)
    ensures NonNegative(Replay(rules, genesis, b))
    ensures 0 <= Total(Replay(rules, genesis, b)) <= TotalSubsidy(b.nHeight) <= MAX_MONEY
    decreases b.nHeight
  {
    hide Connect, GetBlockValue, NonNegative, GoodMap, WellFormedBlock;
    SupplyWithinMaxMoney(b.nHeight);
    if b.pprev != null {
      BranchSupply(rules, genesis, b.pprev);
      ReplayGood(rules, genesis, b.pprev);
      BlockTotal(rules, Replay(rules, genesis, b.pprev), b.block, b.nHeight);
    } else {
      EmptyIsNonNegative();
    }
    TotalNonNegative(Replay(rules, genesis, b));
  }

  lemma EmptyIsNonNegative()
    ensures NonNegative(map[]) && Total(map[]) == 0
  {
  }

  // ---------- no overflow

  const INT64_LIMIT: int := 0x8000_0000_0000_0000

  /** Every running sum of input values that CheckInputs and GetValueIn form is a sum of coins that exist. */
  lemma InputSumsBounded(m: CoinMap, vin: seq<TxIn>, i: nat)
    requires GoodMap(m) && NonNegative(m) && HaveInputs(m, vin) && DistinctInputs(vin) && i <= |vin|
    ensures 0 <= ValueIn(m, vin[..i]) <= Total(m)
  {
    SpendInputsTotal(m, vin, i);
    SpendInputsNonNegative(m, vin[..i]);
    TotalNonNegative(SpendInputs(m, vin[..i]).0);
    ValueInNonNegative(m, vin[..i]);
  }

  lemma {:induction false} ValueInNonNegative(m: CoinMap, vin: seq<TxIn>)
    requires NonNegative(m) && HaveInputs(m, vin)
    ensures 0 <= ValueIn(m, vin)
  {
    if vin != [] {
      ValueInNonNegative(m, vin[..|vin| - 1]);
      assert Available(m, vin[|vin| - 1].prevout);
    }
  }

  /** While a block is connected to a valid branch, the fee sum after any number of transactions, the whole block
      included, and the input sums of the next one stay far inside 64 bits. This holds for any context at that height:
      also where deferred script checks are still open and may fail later. */
  lemma NoFeeOverflow(ctx: Ctx, rules: Rules, genesis: BlockIndex, parent: BlockIndex, m: CoinMap, b: Block, i: nat,
                      k: nat)
    requires Rooted(parent, genesis) && BranchValid(rules, genesis, parent) && parent.nHeight + 1 < INT_LIMIT
    requires m == Replay(rules, genesis, parent) && ctx.height == parent.nHeight + 1
    requires WellFormedBlock(b) && NoOverwrite(m, b.vtx) && i <= |b.vtx|
    requires Run(ctx, m, b.vtx[..i]).Some?
    ensures var acc := Run(ctx, m, b.vtx[..i]).value;
            && 0 <= acc.fees <= 2 * MAX_MONEY < INT64_LIMIT
            && (i < |b.vtx| && HaveInputs(acc.m, b.vtx[i].vin) && k <= |b.vtx[i].vin| ==>
                  0 <= ValueIn(acc.m, b.vtx[i].vin[..k]) <= 2 * MAX_MONEY)
  {
    BranchSupply(rules, genesis, parent);
    ReplayGood(rules, genesis, parent);
    var txs := b.vtx[..i];
    UndoablePrefix(m, b, i);
    RunKeeps(ctx, m, txs);
    RunTotal(ctx, m, txs);
    var acc := Run(ctx, m, txs).value;
    TotalNonNegative(acc.m);
    CoinBaseBounded(b);
    if i < |b.vtx| && HaveInputs(acc.m, b.vtx[i].vin) && k <= |b.vtx[i].vin| {
      InputSumsBounded(acc.m, b.vtx[i].vin, k);
    }
  }

  lemma CoinBaseBounded(b: Block)
    requires WellFormedBlock(b)
    ensures 0 <= ValueSum(b.vtx[0].vout) <= MAX_MONEY
  {
    OutputsTotal(b.vtx[0].vout);
  }
}
