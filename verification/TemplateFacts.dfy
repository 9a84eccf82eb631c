/** A block made from a template passes the very rules it was selected by. */
module TemplateFacts {
  import opened Basics
  import opened Transactions
  import opened CoinsRules
  import opened Ledger
  import opened BlockRules
  import opened Subsidy
  import opened CoinsViews
  import opened BlockTemplates
  import opened SigOps

  /** The transaction neither makes nor spends coins of c. */
  predicate Ignores(tx: Tx, c: Hash) {
    tx.hash != c && forall i :: 0 <= i < |tx.vin| ==> tx.vin[i].prevout.hash != c
  }

  lemma {:induction false} ReadsExtra(rules: Rules, m: CoinMap, c: Hash, x: Coins, vin: seq<TxIn>)
    requires forall i :: 0 <= i < |vin| ==> vin[i].prevout.hash != c
    ensures HaveInputs(m[c := x], vin) <==> HaveInputs(m, vin)
    ensures ValueIn(m[c := x], vin) == ValueIn(m, vin)
    ensures P2SHSigOps(rules, m[c := x], vin) == P2SHSigOps(rules, m, vin)
  {
    assert forall i :: 0 <= i < |vin| ==> (Available(m[c := x], vin[i].prevout) <==> Available(m, vin[i].prevout));
    if vin != [] {
      ReadsExtra(rules, m, c, x, vin[..|vin| - 1]);
      assert PrevOut(m[c := x], vin[|vin| - 1].prevout) == PrevOut(m, vin[|vin| - 1].prevout);
    }
  }

  lemma ValuesExtra(rules: Rules, height: nat, m: CoinMap, c: Hash, x: Coins, tx: Tx)
    requires Ignores(tx, c) && ValuesPass(height, m, tx)
    ensures ValuesPass(height, m[c := x], tx)
  {
    ReadsExtra(rules, m, c, x, tx.vin);
    var m' := m[c := x];
    forall i | 0 <= i < |tx.vin| ensures InputPasses(height, m', tx.vin, i) {
      assert InputPasses(height, m, tx.vin, i);
      ReadsExtra(rules, m, c, x, tx.vin[..i + 1]);
    }
  }

  lemma {:induction false} SpendsExtra(m: CoinMap, c: Hash, x: Coins, vin: seq<TxIn>)
    requires forall i :: 0 <= i < |vin| ==> vin[i].prevout.hash != c
    ensures SpendInputs(m[c := x], vin).0 == SpendInputs(m, vin).0[c := x]
  {
    if vin != [] {
      SpendsExtra(m, c, x, vin[..|vin| - 1]);
      SpendExtra(SpendInputs(m, vin[..|vin| - 1]).0, c, x, vin[|vin| - 1].prevout);
    }
  }

  lemma SpendExtra(m: CoinMap, c: Hash, x: Coins, o: OutPoint)
    requires o.hash != c
    ensures SpendOne(m[c := x], o).0 == SpendOne(m, o).0[c := x]
  {
    assert Available(m[c := x], o) <==> Available(m, o);
  }

  lemma UpdateExtra(m: CoinMap, c: Hash, x: Coins, tx: Tx, height: int)
    requires Ignores(tx, c)
    ensures UpdateCoins(m[c := x], tx, height).0 == UpdateCoins(m, tx, height).0[c := x]
  {
    SpendsExtra(m, c, x, tx.vin);
    var m1: CoinMap := SpendInputs(m, tx.vin).0;
    assert m1[c := x][tx.hash := FromTx(tx, height)] == m1[tx.hash := FromTx(tx, height)][c := x];
    assert m[c := x][tx.hash := FromTx(tx, height)] == m[tx.hash := FromTx(tx, height)][c := x];
  }

  /** Coins of another transaction make no difference to the checks; signature operations counted beforehand matter
      to the limit alone. */
  lemma ChecksExtra(ctx: Ctx, ctx': Ctx, m: CoinMap, c: Hash, x: Coins, tx: Tx, sigOps: nat, more: nat)
    requires Ignores(tx, c) && !tx.IsCoinBase() && ctx.strict && ctx.scripts
    requires ctx'.rules == ctx.rules && ctx'.height == ctx.height && ctx'.strict
    requires TxChecks(ctx, m, tx, sigOps).Some?
    ensures TxChecks(ctx, m, tx, sigOps).value.1 >= sigOps
    ensures var (fee, ops) := TxChecks(ctx, m, tx, sigOps).value;
            TxChecks(ctx', m[c := x], tx, sigOps + more) ==
            if ops + more <= ctx'.maxSigOps then Some((fee, ops + more)) else None
  {
    ReadsExtra(ctx.rules, m, c, x, tx.vin);
    ValuesExtra(ctx.rules, ctx.height, m, c, x, tx);
    hide ValuesPass;
    forall i | 0 <= i < |tx.vin|
      ensures ctx'.rules.scriptOk(PrevOut(m[c := x], tx.vin[i].prevout), tx, i, ctx'.strict)
    {
      assert PrevOut(m[c := x], tx.vin[i].prevout) == PrevOut(m, tx.vin[i].prevout);
    }
  }

  lemma StepBehind(ctx: Ctx, ctx': Ctx, acc: Acc, back: Acc, cb: Tx, tx: Tx)
    requires Ignores(tx, cb.hash) && !tx.IsCoinBase() && ctx.strict && ctx.scripts
    requires ctx'.rules == ctx.rules && ctx'.height == ctx.height && ctx'.strict && TxStep(ctx, acc, tx).Some?
    ensures TxStep(ctx, acc, tx).value.sigOps >= acc.sigOps
    ensures back.m == acc.m[cb.hash := FromTx(cb, ctx.height)] && back.fees == acc.fees
            && back.sigOps == acc.sigOps + cb.sigOps ==>
              var a, r := TxStep(ctx, acc, tx).value, TxStep(ctx', back, tx);
              && (r.Some? <==> a.sigOps + cb.sigOps <= ctx'.maxSigOps)
              && (r.Some? ==>
                    && r.value.m == a.m[cb.hash := FromTx(cb, ctx.height)]
                    && r.value.fees == a.fees && r.value.sigOps == a.sigOps + cb.sigOps)
  {
    hide TxChecks, UpdateCoins, Tx.IsCoinBase, Ignores, FromTx;
    ChecksExtra(ctx, ctx', acc.m, cb.hash, FromTx(cb, ctx.height), tx, acc.sigOps, cb.sigOps);
    UpdateExtra(acc.m, cb.hash, FromTx(cb, ctx.height), tx, ctx.height);
  }

  /** The run of the selection, replayed behind a coinbase: it goes through exactly when the signature operations of
      both fit the other limit. */
  lemma {:induction false} RunBehindCoinbase(ctx: Ctx, ctx': Ctx, m: CoinMap, cb: Tx, txs: seq<Tx>)
    requires cb.IsCoinBase() && ctx.strict && ctx.scripts
    requires ctx'.rules == ctx.rules && ctx'.height == ctx.height && ctx'.strict
    requires forall i :: 0 <= i < |txs| ==> Ignores(txs[i], cb.hash) && !txs[i].IsCoinBase()
    requires Run(ctx, m, txs).Some?
    ensures var acc, r := Run(ctx, m, txs).value, Run(ctx', m, [cb] + txs);
            && (r.Some? <==> acc.sigOps + cb.sigOps <= ctx'.maxSigOps)
            && (r.Some? ==>
                  && r.value.m == acc.m[cb.hash := FromTx(cb, ctx.height)]
                  && r.value.fees == acc.fees && r.value.sigOps == acc.sigOps + cb.sigOps)
  {
    var all := [cb] + txs;
    if txs == [] {
      assert all[..0] == [];
      assert Run(ctx', m, all) == TxStep(ctx', Acc(m, [], 0, 0), cb);
    } else {
      hide TxStep, Tx.IsCoinBase, Ignores, FromTx;
      var front, tx := txs[..|txs| - 1], txs[|txs| - 1];
      RunBehindCoinbase(ctx, ctx', m, cb, front);
      assert all[..|all| - 1] == [cb] + front;
      var before, acc := Run(ctx', m, [cb] + front), Run(ctx, m, front).value;
      StepBehind(ctx, ctx', acc, if before.Some? then before.value else acc, cb, tx);
    }
  }

  /** A block made of a coinbase and the selected transactions, as CreateNewBlock assembles it. */
  ghost predicate FromTemplate(m: CoinMap, p: Picked, block: Block, height: nat)
    requires 1 <= height
  {
    && block.otherChecksPass && block.nTime >= BIP16_SWITCH_TIME
    && |block.vtx| == |p.vtx| + 1 && block.vtx[1..] == p.vtx
    && NoOverwrite(m, block.vtx)
    && var cb := block.vtx[0];
       && cb.IsCoinBase() && WellFormed(cb) && ValueSum(cb.vout) == GetBlockValue(height - 1, p.nFees)
       && forall i :: 0 <= i < |p.vtx| ==> Ignores(p.vtx[i], cb.hash)
  }

  lemma TemplateWellFormed(rules: Rules, m: CoinMap, pool: Pool, nBlockMaxSize: nat, p: Picked, block: Block,
                           height: nat)
    requires 1 <= height && PoolOk(pool) && FromTemplate(m, p, block, height)
    requires PickedOk(TemplateCtx(rules, height), m, pool, nBlockMaxSize, p)
    ensures WellFormedBlock(block)
  {
    hide Run, NoOverwrite, GetBlockValue, ParentsFirst, WellFormed, Tx.IsCoinBase;
    assert forall i :: 1 <= i < |block.vtx| ==> block.vtx[i] == p.vtx[i - 1];
  }

  /** When the block that CreateNewBlock hands to ConnectBlock connects, so that its final test does not throw: the
      coinbase's hash being new and no hash repeated that still has unspent outputs, exactly when the signature
      operations fit the fixed limit of ConnectBlock. */
  lemma TemplateConnects(rules: Rules, m: CoinMap, pool: Pool, nBlockMaxSize: nat, p: Picked, block: Block, height: nat)
    requires 1 <= height && PoolOk(pool) && FromTemplate(m, p, block, height)
    requires PickedOk(TemplateCtx(rules, height), m, pool, nBlockMaxSize, p)
    ensures Connect(rules, m, block, height).Some? <==>
            Sum(p.vTxSigOps) + block.vtx[0].sigOps <= MAX_BLOCK_SIGOPS
  {
    TemplateWellFormed(rules, m, pool, nBlockMaxSize, p, block, height);
    hide NoOverwrite, GetBlockValue, ParentsFirst, FromPool, WellFormedBlock, PoolOk, WellFormed;
    var cb := block.vtx[0];
    assert block.vtx == [cb] + p.vtx;
    NoCoinbases(pool, p.vtx);
    RunBehindCoinbase(TemplateCtx(rules, height), CtxFor(rules, block, height), m, cb, p.vtx);
  }

  lemma NoCoinbases(pool: Pool, vtx: seq<Tx>)
    requires FromPool(pool, vtx)
    ensures forall i :: 0 <= i < |vtx| ==> !vtx[i].IsCoinBase()
  {
  }

  /** Below the fork height both limits agree, so a coinbase within the reserved operations always connects. */
  lemma TemplateConnectsBelowFork(rules: Rules, m: CoinMap, pool: Pool, nBlockMaxSize: nat, p: Picked, block: Block,
                                  height: nat)
    requires 1 <= height < ZILLIONFLUX_FORK_HEIGHT && PoolOk(pool) && FromTemplate(m, p, block, height)
    requires PickedOk(TemplateCtx(rules, height), m, pool, nBlockMaxSize, p)
    requires block.vtx[0].sigOps <= RESERVED_SIGOPS
    ensures Connect(rules, m, block, height).Some?
  {
    TemplateConnects(rules, m, pool, nBlockMaxSize, p, block, height);
  }

  // ---------- a template that its own block test refuses

  const HEAVY_SCRIPT: Script := seq(500, i => 0xae)
  const OLD_COINBASE := Coins(true, [TxOut(5, [0x51])], 1, 1)
  const HEAVY := Tx(2, 1, [TxIn(OutPoint(1, 0), [], 0)], [TxOut(5, HEAVY_SCRIPT)], 0, 562, 10_000)
  const HEAVY_POOL: Pool := map[2 := HEAVY]
  const HEAVY_PICK := Picked([HEAVY], [0], [10_000], 1562, 10_100, 0)

  /** Among any other coins there is an old coinbase output that anyone may spend. */
  ghost predicate HasOldCoinbase(m: CoinMap) {
    GoodMap(m) && 1 in m && m[1] == OLD_COINBASE
  }

  lemma OneOutput(vout: seq<TxOut>)
    requires |vout| == 1
    ensures ValueSum(vout) == vout[0].nValue
    ensures OutputsInRange(vout) <==> MoneyRange(vout[0].nValue)
  {
    var none := vout[..0];
    assert OutputsInRange(none) && ValueSum(none) == 0;
  }

  /** 500 multisignature checks in an output script: the transaction is well-formed, and its size and its count of
      signature operations are those of its scripts. */
  lemma HeavyIsGenuine()
    ensures HEAVY.size == SerializedSize(HEAVY) && HEAVY.sigOps == InputSigOps(HEAVY.vin) + OutputSigOps(HEAVY.vout)
    ensures WellFormed(HEAVY) && PoolOk(HEAVY_POOL)
  {
    OneToOne(HEAVY, HEAVY.vin[0], HEAVY.vout[0]);
    MultisigOnly(500, OP_INVALIDOPCODE);
    OneOutput(HEAVY.vout);
  }

  /** The script it spends is a constant true, the signature checks stand in the output it makes. */
  predicate SpendsFreely(rules: Rules) {
    rules.scriptOk(TxOut(5, [0x51]), HEAVY, 0, true) && rules.p2shSigOps(TxOut(5, [0x51]), HEAVY.vin[0]) == 0
  }

  lemma HeavyPasses(rules: Rules, m: CoinMap)
    requires SpendsFreely(rules) && HasOldCoinbase(m)
    ensures TxChecks(TemplateCtx(rules, ZILLIONFLUX_FORK_HEIGHT), m, HEAVY, RESERVED_SIGOPS) == Some((0, 10_100))
    ensures P2SHSigOps(rules, m, HEAVY.vin) == 0 && AllDeps(m, HEAVY) == {}
    ensures PickedOk(TemplateCtx(rules, ZILLIONFLUX_FORK_HEIGHT), m, HEAVY_POOL, 999_000, HEAVY_PICK)
  {
    HeavyIsGenuine();
    var ctx := TemplateCtx(rules, ZILLIONFLUX_FORK_HEIGHT);
    assert HEAVY.vout[..0] == [] && HEAVY.vin[..0] == [] && HEAVY.vin[..1] == HEAVY.vin;
    assert ValueSum(HEAVY.vout) == 5;
    assert PrevOut(m, OutPoint(1, 0)) == TxOut(5, [0x51]);
    assert ValueIn(m, HEAVY.vin) == 5 && P2SHSigOps(rules, m, HEAVY.vin) == 0;
    assert InputPasses(ctx.height, m, HEAVY.vin, 0);
    assert ValuesPass(ctx.height, m, HEAVY);
    assert TxChecks(ctx, m, HEAVY, 0) == Some((0, 10_000));
    assert [HEAVY][..0] == [] && [0][..0] == [] && [10_000][..0] == [];
    assert Run(ctx, m, [HEAVY]) == TxStep(ctx, Acc(m, [], 0, 0), HEAVY);
  }

  /** A queue that holds just this transaction ends with it in the block. */
  lemma HeavyIsTaken(rules: Rules, m: CoinMap, height: nat, isFinal: Tx -> bool, limits: Limits, order: seq<Entry>)
    requires SpendsFreely(rules) && HasOldCoinbase(m) && isFinal(HEAVY)
    requires limits.nBlockMaxSize > 1562 && limits.nBlockPrioritySize > 0
    requires Fair(TemplateCtx(rules, ZILLIONFLUX_FORK_HEIGHT), m,
                  Candidates(m, HEAVY_POOL, height, isFinal), limits, order)
    ensures OfferAll(TemplateCtx(rules, ZILLIONFLUX_FORK_HEIGHT), m, limits, order).p == HEAVY_PICK
  {
    HeavyPasses(rules, m);
    hide AllDeps, TxChecks, P2SHSigOps;
    var ctx, cands := TemplateCtx(rules, ZILLIONFLUX_FORK_HEIGHT), Candidates(m, HEAVY_POOL, height, isFinal);
    assert FoundUpTo(m, HEAVY_POOL, HEAVY, 1);
    var e := Scored(m, HEAVY_POOL, height, HEAVY);
    hide Scored;
    assert e in cands && forall e' :: e' in cands ==> e' == e;
    assert !Open(m, cands, Hashes(OfferAll(ctx, m, limits, order).p.vtx), order, e);
    forall i | 0 <= i < |order| ensures order[i] == e && i == 0 {
      assert FairNext(m, cands, OfferAll(ctx, m, limits, order[..0]), order[..0], order[0]);
      assert FairNext(m, cands, OfferAll(ctx, m, limits, order[..i]), order[..i], order[i]);
      OnceOffered(ctx, m, cands, limits, order, i, 0);
    }
    assert order == [e] && [e][..0] == [];
    assert CoinsAfter(ctx, m, []) == m;
    assert Judge(ctx, m, limits, Start(limits), e) == IsTaken(0, 10_000);
  }

  /** CreateNewBlock at the fork height, over a pool that holds just this transaction. */
  method HeavyTemplate(rules: Rules, view: ViewCache, isFinal: Tx -> bool, maxArg: nat, priorityArg: nat, minArg: nat,
                       coinbaseSigOps: nat) returns (t: Template)
    requires view.Valid() && HasOldCoinbase(view.Contents())
    requires view.Best() != null && view.Best().nHeight + 1 == ZILLIONFLUX_FORK_HEIGHT
    requires SpendsFreely(rules) && isFinal(HEAVY) && maxArg > 1562 && priorityArg > 0
    modifies view.views
    ensures t.vtx == [HEAVY] && t.vTxSigOps == [coinbaseSigOps, 10_000] && t.nBlockSize == 1562
  {
    hide ViewCache.Contents, ViewCache.Best, Fair, OfferAll, Candidates, PickedOk;
    HeavyIsGenuine();
    ghost var m := view.Contents();
    NothingHalfMissing(m);
    ghost var order;
    t, order := CreateNewBlock(rules, view, HEAVY_POOL, isFinal, maxArg, priorityArg, minArg, coinbaseSigOps);
    HeavyIsTaken(rules, m, ZILLIONFLUX_FORK_HEIGHT, isFinal,
                 LimitsFor(ZILLIONFLUX_FORK_HEIGHT, maxArg, priorityArg, minArg), order);
  }

  lemma NothingHalfMissing(m: CoinMap)
    requires HasOldCoinbase(m)
    ensures NoneHalfMissing(m, HEAVY_POOL) && forall isFinal :: Priceable(m, HEAVY_POOL, isFinal)
  {
  }

  const HEAVY_COINBASE := Tx(3, 1, [TxIn(OutPoint(0, NULL_INDEX), [0, 0], 0)],
                             [TxOut(GetBlockValue(ZILLIONFLUX_FORK_HEIGHT - 1, 0), [])], 0, 62, 0)

  /** Such blocks exist, as long as both hashes are new. */
  lemma HeavyBlockExists(m: CoinMap)
    requires At(m, 2) == At(m, 3) == EMPTY_COINS
    ensures FromTemplate(m, HEAVY_PICK, Block([HEAVY_COINBASE, HEAVY], BIP16_SWITCH_TIME, true),
                         ZILLIONFLUX_FORK_HEIGHT)
    ensures HEAVY_COINBASE.size == SerializedSize(HEAVY_COINBASE)
    ensures HEAVY_COINBASE.sigOps == InputSigOps(HEAVY_COINBASE.vin) + OutputSigOps(HEAVY_COINBASE.vout)
  {
    hide GetBlockValue, SerializedSize, InputSigOps, OutputSigOps;
    HeavyCoinbaseIsGenuine();
  }

  lemma HeavyCoinbaseIsGenuine()
    ensures HEAVY_COINBASE.size == SerializedSize(HEAVY_COINBASE)
    ensures HEAVY_COINBASE.sigOps == InputSigOps(HEAVY_COINBASE.vin) + OutputSigOps(HEAVY_COINBASE.vout)
    ensures WellFormed(HEAVY_COINBASE)
    ensures ValueSum(HEAVY_COINBASE.vout) == GetBlockValue(ZILLIONFLUX_FORK_HEIGHT - 1, 0)
  {
    hide GetBlockValue, ScriptSigOps;
    SubsidyStep(ZILLIONFLUX_FORK_HEIGHT - 2);
    OneToOne(HEAVY_COINBASE, HEAVY_COINBASE.vin[0], HEAVY_COINBASE.vout[0]);
    NoSigOps();
    OneOutput(HEAVY_COINBASE.vout);
  }

  lemma NoSigOps()
    ensures ScriptSigOps([0, 0], false) == 0 && ScriptSigOps([], false) == 0
  {
    hide SigOpsAfter;
    PushesOnly(2, OP_INVALIDOPCODE);
    PushesOnly(0, OP_INVALIDOPCODE);
    assert [0, 0] == seq(2, i => 0) && [] == seq(0, i => 0);
  }

  /** From the fork height on, a template may hold up to 20000 signature operations and ConnectBlock still allows 4000:
      every block made from this template is refused, and CreateNewBlock throws. */
  lemma HeavyIsRefused(rules: Rules, m: CoinMap, block: Block)
    requires SpendsFreely(rules) && HasOldCoinbase(m)
    requires FromTemplate(m, HEAVY_PICK, block, ZILLIONFLUX_FORK_HEIGHT)
    ensures Connect(rules, m, block, ZILLIONFLUX_FORK_HEIGHT).None?
  {
    HeavyIsGenuine();
    HeavyPasses(rules, m);
    assert [10_000][..0] == [];
    TemplateConnects(rules, m, HEAVY_POOL, 999_000, HEAVY_PICK, block, ZILLIONFLUX_FORK_HEIGHT);
  }
}
