/** ConnectBlock and DisconnectBlock as they run, over a coins view that is updated in place. */
module Connecting {
  import opened Basics
  import opened Transactions
  import opened CoinsRules
  import opened Ledger
  import opened BlockRules
  import opened BlockTree
  import opened CoinsViews
  import opened Subsidy
  import CheckQueue

  /** A script verification that may be handed to the check queue. */
  datatype ScriptCheck = ScriptCheck(prevout: TxOut, tx: Tx, n: nat, strict: bool) {
    predicate Passes(rules: Rules) {
      rules.scriptOk(prevout, tx, n, strict)
    }
  }

  /** The checks as the queue sees them: running one yields its verdict. */
  function Verdicts(rules: Rules, checks: seq<ScriptCheck>): seq<CheckQueue.Check> {
    seq(|checks|, i requires 0 <= i < |checks| => CheckQueue.Check(checks[i].Passes(rules)))
  }

  predicate AllPass(rules: Rules, checks: seq<ScriptCheck>) {
    CheckQueue.AllPass(Verdicts(rules, checks))
  }

  lemma AllPassMore(rules: Rules, a: seq<ScriptCheck>, b: seq<ScriptCheck>)
    ensures AllPass(rules, a + b) <==> AllPass(rules, a) && AllPass(rules, b)
  {
    assert Verdicts(rules, a + b) == Verdicts(rules, a) + Verdicts(rules, b);
    CheckQueue.AllPassConcat(Verdicts(rules, a), Verdicts(rules, b));
  }

  method HaveAllInputs(view: ViewCache, vin: seq<TxIn>) returns (ok: bool)
    requires view.Valid()
    modifies view.views
    ensures view.Contents() == old(view.Contents()) && view.Best() == old(view.Best()) && view.BelowKept()
    ensures ok <==> HaveInputs(view.Contents(), vin)
  {
    hide ViewCache.Contents, ViewCache.Best;
    for i := 0 to |vin|
      invariant view.Contents() == old(view.Contents()) && view.Best() == old(view.Best()) && view.BelowKept()
      invariant forall k :: 0 <= k < i ==> vin[k].prevout.hash in view.Contents()
    {
      var found := view.HaveCoins(vin[i].prevout.hash);
      if !found {
        return false;
      }
    }
    for i := 0 to |vin|
      invariant view.Contents() == old(view.Contents()) && view.Best() == old(view.Best()) && view.BelowKept()
      invariant forall k :: 0 <= k < |vin| ==> vin[k].prevout.hash in view.Contents()
      invariant forall k :: 0 <= k < i ==> Available(view.Contents(), vin[k].prevout)
    {
      var coins := view.GetCoins(vin[i].prevout.hash);
      if !coins.value.IsAvailable(vin[i].prevout.n) {
        return false;
      }
    }
    return true;
  }

  /** GetOutputFor; its assertion holds because the inputs are there. */
  method GetOutputFor(view: ViewCache, o: OutPoint) returns (out: TxOut)
    requires view.Valid() && Available(view.Contents(), o)
    modifies view.views
    ensures view.Contents() == old(view.Contents()) && view.Best() == old(view.Best()) && view.BelowKept()
    ensures out == PrevOut(view.Contents(), o)
  {
    hide ViewCache.Contents, ViewCache.Best;
    var coins := view.GetCoins(o.hash);
    assert coins.value.IsAvailable(o.n);
    return coins.value.vout[o.n];
  }

  method GetValueIn(view: ViewCache, tx: Tx) returns (nResult: int)
    requires view.Valid() && !tx.IsCoinBase() && HaveInputs(view.Contents(), tx.vin)
    modifies view.views
    ensures view.Contents() == old(view.Contents()) && view.Best() == old(view.Best()) && view.BelowKept()
    ensures nResult == ValueIn(view.Contents(), tx.vin)
  {
    hide ViewCache.Contents, ViewCache.Best;
    nResult := 0;
    for i := 0 to |tx.vin|
      invariant view.Contents() == old(view.Contents()) && view.Best() == old(view.Best()) && view.BelowKept()
      invariant nResult == ValueIn(view.Contents(), tx.vin[..i])
    {
      var out := GetOutputFor(view, tx.vin[i].prevout);
      nResult := nResult + out.nValue;
      assert tx.vin[..i + 1][..i] == tx.vin[..i];
    }
    assert tx.vin[..|tx.vin|] == tx.vin;
  }

  method GetP2SHSigOpCount(rules: Rules, view: ViewCache, tx: Tx) returns (nSigOps: nat)
    requires view.Valid() && !tx.IsCoinBase() && HaveInputs(view.Contents(), tx.vin)
    modifies view.views
    ensures view.Contents() == old(view.Contents()) && view.Best() == old(view.Best()) && view.BelowKept()
    ensures nSigOps == P2SHSigOps(rules, view.Contents(), tx.vin)
  {
    hide ViewCache.Contents, ViewCache.Best;
    nSigOps := 0;
    for i := 0 to |tx.vin|
      invariant view.Contents() == old(view.Contents()) && view.Best() == old(view.Best()) && view.BelowKept()
      invariant nSigOps == P2SHSigOps(rules, view.Contents(), tx.vin[..i])
    {
      var out := GetOutputFor(view, tx.vin[i].prevout);
      nSigOps := nSigOps + rules.p2shSigOps(out, tx.vin[i]);
      assert tx.vin[..i + 1][..i] == tx.vin[..i];
    }
    assert tx.vin[..|tx.vin|] == tx.vin;
  }

  method GetValueOut(tx: Tx) returns (nValueOut: int)
    requires OutputsInRange(tx.vout)
    ensures nValueOut == ValueSum(tx.vout)
  {
    nValueOut := 0;
    for i := 0 to |tx.vout|
      invariant nValueOut == ValueSum(tx.vout[..i])
    {
      nValueOut := nValueOut + tx.vout[i].nValue;
      assert tx.vout[..i + 1][..i] == tx.vout[..i];
      PrefixInRange(tx.vout, i);
      assert MoneyRange(tx.vout[i].nValue) && MoneyRange(nValueOut);
    }
    assert tx.vout[..|tx.vout|] == tx.vout;
  }

  /** One round of CheckInputs' money loop. */
  method CheckInputValue(height: nat, view: ViewCache, vin: seq<TxIn>, i: nat, before: int)
    returns (ok: bool, nValueIn: int)
    requires view.Valid() && i < |vin| && Available(view.Contents(), vin[i].prevout)
    requires before == ValueIn(view.Contents(), vin[..i])
    requires view.Best() != null && view.Best().nHeight + 1 == height
    modifies view.views
    ensures view.Contents() == old(view.Contents()) && view.Best() == old(view.Best()) && view.BelowKept()
    ensures ok <==> InputPasses(height, view.Contents(), vin, i)
    ensures ok ==> nValueIn == ValueIn(view.Contents(), vin[..i + 1])
  {
    hide ViewCache.Contents, ViewCache.Best;
    var tip := view.GetBestBlock();
    var nSpendHeight := tip.nHeight + 1;
    var prevout := vin[i].prevout;
    var coins := view.GetCoins(prevout.hash);
    AvailableAt(view.Contents(), prevout);
    ValueInSnoc(view.Contents(), vin, i);
    nValueIn := before;
    if coins.value.fCoinBase && nSpendHeight - coins.value.nHeight < COINBASE_MATURITY {
      return false, nValueIn;
    }
    nValueIn := nValueIn + coins.value.vout[prevout.n].nValue;
    return MoneyRange(coins.value.vout[prevout.n].nValue) && MoneyRange(nValueIn), nValueIn;
  }

  /** The money part of CheckInputs. */
  method CheckValues(height: nat, view: ViewCache, tx: Tx) returns (ok: bool)
    requires view.Valid() && WellFormed(tx) && !tx.IsCoinBase()
    requires view.Best() != null && view.Best().nHeight + 1 == height
    modifies view.views
    ensures view.Contents() == old(view.Contents()) && view.Best() == old(view.Best()) && view.BelowKept()
    ensures ok <==> ValuesPass(height, view.Contents(), tx)
  {
    hide ViewCache.Contents, ViewCache.Best;
    ok := HaveAllInputs(view, tx.vin);
    if !ok {
      return;
    }
    var nValueIn := 0;
    for i := 0 to |tx.vin|
      invariant view.Contents() == old(view.Contents()) && view.Best() == old(view.Best()) && view.BelowKept()
      invariant nValueIn == ValueIn(view.Contents(), tx.vin[..i])
      invariant forall k :: 0 <= k < i ==> InputPasses(height, view.Contents(), tx.vin, k)
    {
      ok, nValueIn := CheckInputValue(height, view, tx.vin, i, nValueIn);
      if !ok {
        return;
      }
    }
    assert tx.vin[..|tx.vin|] == tx.vin;
    var nValueOut := GetValueOut(tx);
    if nValueIn < nValueOut {
      return false;
    }
    return MoneyRange(nValueIn - nValueOut);
  }

  lemma ValueInSnoc(m: CoinMap, vin: seq<TxIn>, i: nat)
    requires i < |vin|
    ensures ValueIn(m, vin[..i + 1]) == ValueIn(m, vin[..i]) + PrevOut(m, vin[i].prevout).nValue
  {
    assert vin[..i + 1][..i] == vin[..i];
  }

  /** With `deferred` the script checks come back to be queued; without it they run here. */
  method CheckScripts(ctx: Ctx, view: ViewCache, tx: Tx, deferred: bool) returns (ok: bool, checks: seq<ScriptCheck>)
    requires view.Valid() && HaveInputs(view.Contents(), tx.vin)
    modifies view.views
    ensures view.Contents() == old(view.Contents()) && view.Best() == old(view.Best()) && view.BelowKept()
    ensures ok && AllPass(ctx.rules, checks) <==>
            ScriptsPass(ctx, view.Contents(), tx)
    ensures !deferred ==> checks == []
  {
    hide ViewCache.Contents, ViewCache.Best;
    checks := [];
    for i := 0 to |tx.vin|
      invariant view.Contents() == old(view.Contents()) && view.Best() == old(view.Best()) && view.BelowKept()
      invariant AllPass(ctx.rules, checks) <==> ScriptsPassUpTo(ctx, view.Contents(), tx, i)
      invariant !deferred ==> checks == []
    {
      var out := GetOutputFor(view, tx.vin[i].prevout);
      var check := ScriptCheck(out, tx, i, ctx.strict);
      assert ScriptsPassUpTo(ctx, view.Contents(), tx, i + 1) <==>
             ScriptsPassUpTo(ctx, view.Contents(), tx, i) && check.Passes(ctx.rules);
      if deferred {
        AllPassMore(ctx.rules, checks, [check]);
        assert AllPass(ctx.rules, [check]) <==> Verdicts(ctx.rules, [check])[0].passes;
        checks := checks + [check];
      } else if !check.Passes(ctx.rules) {
        return false, [];
      }
    }
    return true, checks;
  }

  method CheckInputs(ctx: Ctx, view: ViewCache, tx: Tx, deferred: bool) returns (ok: bool, checks: seq<ScriptCheck>)
    requires view.Valid() && WellFormed(tx) && !tx.IsCoinBase()
    requires view.Best() != null && view.Best().nHeight + 1 == ctx.height
    modifies view.views
    ensures view.Contents() == old(view.Contents()) && view.Best() == old(view.Best()) && view.BelowKept()
    ensures ok && AllPass(ctx.rules, checks) <==>
            ValuesPass(ctx.height, view.Contents(), tx) && (ctx.scripts ==> ScriptsPass(ctx, view.Contents(), tx))
    ensures !deferred ==> checks == []
  {
    hide ViewCache.Contents, ViewCache.Best;
    checks := [];
    ok := CheckValues(ctx.height, view, tx);
    if ok && ctx.scripts {
      ok, checks := CheckScripts(ctx, view, tx, deferred);
    }
  }

  /** Marks one output spent in place; the source asserts that this succeeds. */
  method SpendInput(view: ViewCache, out: OutPoint) returns (undo: TxInUndo)
    requires view.Valid() && Available(view.Contents(), out)
    modifies view.views
    ensures (view.Contents(), [undo]) == SpendOne(old(view.Contents()), out)
    ensures view.Best() == old(view.Best()) && view.BelowKept()
  {
    hide ViewCache.Contents, ViewCache.Best;
    var found := view.FetchCoins(out.hash);
    assert found;
    var coins := new CoinsEntry(view.cacheCoins[out.hash]);
    var spent;
    spent, undo := coins.Spend(out.n);
    assert spent;
    view.SetCoins(out.hash, coins.Value());
  }

  lemma SpendInputsSnoc(m: CoinMap, vin: seq<TxIn>, i: nat)
    requires i < |vin|
    ensures var (m1, undo1) := SpendInputs(m, vin[..i]);
            var (m2, undo2) := SpendOne(m1, vin[i].prevout);
            SpendInputs(m, vin[..i + 1]) == (m2, undo1 + undo2)
  {
    assert vin[..i + 1][..i] == vin[..i];
  }

  /** Spends the inputs and adds the outputs. Neither assertion of the source can fail here. */
  method UpdateCoinsIn(view: ViewCache, tx: Tx, nHeight: int) returns (txundo: TxUndo)
    requires view.Valid() && GoodMap(view.Contents()) && WellFormed(tx)
    requires tx.IsCoinBase() || HaveInputs(view.Contents(), tx.vin)
    modifies view.views
    ensures (view.Contents(), txundo) == UpdateCoins(old(view.Contents()), tx, nHeight)
    ensures view.Best() == old(view.Best()) && view.BelowKept()
  {
    hide ViewCache.Contents, ViewCache.Best;
    ghost var m := view.Contents();
    txundo := [];
    if !tx.IsCoinBase() {
      for i := 0 to |tx.vin|
        invariant view.Best() == old(view.Best()) && view.BelowKept()
        invariant (view.Contents(), txundo) == SpendInputs(m, tx.vin[..i])
      {
        NoSpendRefused(m, tx.vin, i);
        SpendInputsSnoc(m, tx.vin, i);
        var undo := SpendInput(view, tx.vin[i].prevout);
        txundo := txundo + [undo];
      }
      assert tx.vin[..|tx.vin|] == tx.vin;
    }
    view.SetCoins(tx.hash, FromTx(tx, nHeight));
  }

  /** Adds the pay-to-script-hash part of the signature count, where that rule applies. */
  method CountSigOps(ctx: Ctx, view: ViewCache, tx: Tx, ops: nat) returns (nSigOps: nat)
    requires view.Valid() && !tx.IsCoinBase() && HaveInputs(view.Contents(), tx.vin)
    modifies view.views
    ensures view.Contents() == old(view.Contents()) && view.Best() == old(view.Best()) && view.BelowKept()
    ensures nSigOps == if ctx.strict then ops + P2SHSigOps(ctx.rules, view.Contents(), tx.vin) else ops
  {
    hide ViewCache.Contents, ViewCache.Best;
    nSigOps := ops;
    if ctx.strict {
      var more := GetP2SHSigOpCount(ctx.rules, view, tx);
      nSigOps := nSigOps + more;
    }
  }

  method GetFee(view: ViewCache, tx: Tx) returns (fee: int)
    requires view.Valid() && WellFormed(tx) && !tx.IsCoinBase() && HaveInputs(view.Contents(), tx.vin)
    modifies view.views
    ensures view.Contents() == old(view.Contents()) && view.Best() == old(view.Best()) && view.BelowKept()
    ensures fee == ValueIn(view.Contents(), tx.vin) - ValueSum(tx.vout)
  {
    hide ViewCache.Contents, ViewCache.Best;
    var valueIn := GetValueIn(view, tx);
    var valueOut := GetValueOut(tx);
    fee := valueIn - valueOut;
  }

  method CheckTx(ctx: Ctx, view: ViewCache, tx: Tx, threads: bool, sigOps: nat)
    returns (ok: bool, fee: int, nSigOps: nat, checks: seq<ScriptCheck>)
    requires view.Valid() && WellFormed(tx)
    requires view.Best() != null && view.Best().nHeight + 1 == ctx.height
    modifies view.views
    ensures view.Contents() == old(view.Contents()) && view.Best() == old(view.Best()) && view.BelowKept()
    ensures ok && AllPass(ctx.rules, checks) <==> TxChecks(ctx, view.Contents(), tx, sigOps).Some?
    ensures ok && AllPass(ctx.rules, checks) ==> TxChecks(ctx, view.Contents(), tx, sigOps) == Some((fee, nSigOps))
    ensures ok && !tx.IsCoinBase() ==> HaveInputs(view.Contents(), tx.vin)
  {
    hide ViewCache.Contents, ViewCache.Best;
    ok, fee, nSigOps, checks := true, 0, sigOps + tx.sigOps, [];
    if nSigOps > ctx.maxSigOps {
      ok := false;
      return;
    }
    if tx.IsCoinBase() {
      return;
    }
    ok := HaveAllInputs(view, tx.vin);
    if !ok {
      return;
    }
    nSigOps := CountSigOps(ctx, view, tx, nSigOps);
    if nSigOps > ctx.maxSigOps {
      ok := false;
      return;
    }
    fee := GetFee(view, tx);
    ok, checks := CheckInputs(ctx, view, tx, threads);
  }

  /** One transaction of ConnectBlock. A deferred check that will fail lets it carry on, over coins that no
      accepted block will see. */
  method ConnectTx(ctx: Ctx, view: ViewCache, tx: Tx, threads: bool, before: BlockUndo, fees: int, sigOps: nat)
    returns (ok: bool, blockundo: BlockUndo, nFees: int, nSigOps: nat, checks: seq<ScriptCheck>)
    requires view.Valid() && GoodMap(view.Contents()) && WellFormed(tx) && 1 <= ctx.height < INT_LIMIT
    requires view.Best() != null && view.Best().nHeight + 1 == ctx.height
    modifies view.views
    ensures view.Best() == old(view.Best()) && view.BelowKept()
    ensures ok ==> GoodMap(view.Contents())
    ensures ok && AllPass(ctx.rules, checks) <==>
            TxStep(ctx, Acc(old(view.Contents()), before, fees, sigOps), tx).Some?
    ensures ok && AllPass(ctx.rules, checks) ==>
            TxStep(ctx, Acc(old(view.Contents()), before, fees, sigOps), tx)
            == Some(Acc(view.Contents(), blockundo, nFees, nSigOps))
  {
    hide ViewCache.Contents, ViewCache.Best;
    var fee;
    ok, fee, nSigOps, checks := CheckTx(ctx, view, tx, threads, sigOps);
    blockundo, nFees := before, fees + fee;
    if !ok {
      return;
    }
    UpdateCoinsGood(view.Contents(), tx, ctx.height);
    var txundo := UpdateCoinsIn(view, tx, ctx.height);
    if !tx.IsCoinBase() {
      blockundo := blockundo + [txundo];
    }
  }

  lemma RunSnoc(ctx: Ctx, m: CoinMap, vtx: seq<Tx>, i: nat)
    requires i < |vtx|
    ensures Run(ctx, m, vtx[..i + 1]) == match Run(ctx, m, vtx[..i])
                                         case None => None
                                         case Some(acc) => TxStep(ctx, acc, vtx[i])
  {
    assert vtx[..i + 1][..i] == vtx[..i];
  }

  /** The loop of ConnectBlock over the transactions, with or without script threads. */
  method ConnectTxs(ctx: Ctx, view: ViewCache, vtx: seq<Tx>, threads: bool)
    returns (ok: bool, blockundo: BlockUndo, nFees: int, queued: seq<ScriptCheck>)
    requires view.Valid() && GoodMap(view.Contents()) && 1 <= ctx.height < INT_LIMIT
    requires forall i :: 0 <= i < |vtx| ==> WellFormed(vtx[i])
    requires view.Best() != null && view.Best().nHeight + 1 == ctx.height
    modifies view.views
    ensures view.Best() == old(view.Best()) && view.BelowKept()
    ensures ok && AllPass(ctx.rules, queued) <==> Run(ctx, old(view.Contents()), vtx).Some?
    ensures ok && AllPass(ctx.rules, queued) ==>
              var acc := Run(ctx, old(view.Contents()), vtx).value;
              view.Contents() == acc.m && blockundo == acc.undo && nFees == acc.fees
  {
    hide ViewCache.Contents, ViewCache.Best;
    ghost var m := view.Contents();
    var nSigOps: nat := 0;
    ok, blockundo, nFees, queued := true, [], 0, [];
    for i := 0 to |vtx|
      invariant view.Best() == old(view.Best()) && view.BelowKept()
      invariant GoodMap(view.Contents())
      invariant ok
      invariant AllPass(ctx.rules, queued) <==> Run(ctx, m, vtx[..i]).Some?
      invariant AllPass(ctx.rules, queued) ==>
                  Run(ctx, m, vtx[..i]) == Some(Acc(view.Contents(), blockundo, nFees, nSigOps))
    {
      RunSnoc(ctx, m, vtx, i);
      var checks;
      ok, blockundo, nFees, nSigOps, checks := ConnectTx(ctx, view, vtx[i], threads, blockundo, nFees, nSigOps);
      if !ok {
        PrefixMustRun(ctx, m, vtx, i + 1);
        return;
      }
      AllPassMore(ctx.rules, queued, checks);
      queued := queued + checks;
    }
    assert vtx[..|vtx|] == vtx;
  }

  lemma PrefixMustRun(ctx: Ctx, m: CoinMap, vtx: seq<Tx>, i: nat)
    requires i <= |vtx| && Run(ctx, m, vtx[..i]).None?
    ensures Run(ctx, m, vtx).None?
  {
    if Run(ctx, m, vtx).Some? {
      PrefixesRun(ctx, m, vtx, i);
      assert false;
    }
  }

  datatype ConnectResult = Connected | Rejected | IoError

  /** What the disk does for one block: whether it and its undo data can be read, and whether its undo data, its
      index entry and the optional transaction indexes can be written. */
  datatype BlockIo = BlockIo(readOk: bool, undoReadOk: bool, undoWriteOk: bool, indexWriteOk: bool, txIndexOk: bool)

  /** ConnectBlock writes undo data once per block and never replaces it. */
  predicate WritesFail(hadUndo: bool, scriptsValid: bool, io: BlockIo) {
    (!hadUndo && !io.undoWriteOk) || ((!hadUndo || !scriptsValid) && !io.indexWriteOk) || !io.txIndexOk
  }

  method BIP30Check(view: ViewCache, vtx: seq<Tx>) returns (ok: bool)
    requires view.Valid()
    modifies view.views
    ensures view.Contents() == old(view.Contents()) && view.Best() == old(view.Best()) && view.BelowKept()
    ensures ok ==> NoOverwrite(view.Contents(), vtx)
    ensures GoodMap(view.Contents()) && NoOverwrite(view.Contents(), vtx) ==> ok
  {
    hide ViewCache.Contents, ViewCache.Best;
    for i := 0 to |vtx|
      invariant view.Contents() == old(view.Contents()) && view.Best() == old(view.Best()) && view.BelowKept()
      invariant forall k :: 0 <= k < i ==> At(view.Contents(), vtx[k].hash) == EMPTY_COINS
    {
      var coins := view.GetCoins(vtx[i].hash);
      if coins.Some? && !coins.value.IsPruned() {
        assert At(view.Contents(), vtx[i].hash) == coins.value != EMPTY_COINS;
        return false;
      }
    }
    return true;
  }

  /** Everything ConnectBlock does to the coins, for a block other than genesis. */
  method ConnectCoins(rules: Rules, view: ViewCache, block: Block, height: nat, threads: bool)
    returns (ok: bool, blockundo: BlockUndo)
    requires view.Valid() && GoodMap(view.Contents()) && 1 <= height < INT_LIMIT
    requires view.Best() != null && view.Best().nHeight + 1 == height
    modifies view.views
    ensures view.Best() == old(view.Best()) && view.BelowKept()
    ensures ok <==> Connect(rules, old(view.Contents()), block, height).Some?
    ensures ok ==> Connect(rules, old(view.Contents()), block, height) == Some((view.Contents(), blockundo))
  {
    hide Run, ViewCache.Contents, ViewCache.Best, GoodMap, AllPass, GetBlockValue, ValueSum, NoOverwrite;
    blockundo := [];
    ok := CheckBlock(block);
    if !ok {
      return;
    }
    ok := BIP30Check(view, block.vtx);
    if !ok {
      return;
    }
    var nFees, queued;
    var ctx := CtxFor(rules, block, height);
    ok, blockundo, nFees, queued := ConnectTxs(ctx, view, block.vtx, threads);
    if !ok {
      return;
    }
    var minted := GetValueOut(block.vtx[0]);
    if minted > GetBlockValue(height - 1, nFees) {
      ok := false;
      return;
    }
    // control.Wait(): the verdict of the check queue.
    ok := AllPass(rules, queued);
  }

  /** ConnectBlock. The view must stand at the parent, as the source asserts. */
  method ConnectBlock(rules: Rules, view: ViewCache, pindex: BlockIndex, io: BlockIo, threads: bool)
    returns (r: ConnectResult)
    requires view.Valid() && GoodMap(view.Contents()) && pindex.nHeight < INT_LIMIT
    requires view.Best() == pindex.pprev
    requires pindex.pprev != null ==> pindex.nHeight == pindex.pprev.nHeight + 1
    modifies view.views, pindex`undo, pindex`fScriptsValid
    ensures view.BelowKept()
    ensures pindex.pprev == null ==>
              && r == (if WellFormedBlock(pindex.block) then Connected else Rejected)
              && view.Contents() == old(view.Contents())
              && pindex.undo == old(pindex.undo) && pindex.fScriptsValid == old(pindex.fScriptsValid)
    ensures pindex.pprev != null ==>
              var c := Connect(rules, old(view.Contents()), pindex.block, pindex.nHeight);
              && r == (if c.None? then Rejected
                       else if WritesFail(old(pindex.undo).Some?, old(pindex.fScriptsValid), io) then IoError
                       else Connected)
              && (r.Connected? ==> view.Contents() == c.value.0 && pindex.undo.Some? && pindex.fScriptsValid)
              && pindex.undo == (if c.Some? && old(pindex.undo).None? && io.undoWriteOk then Some(c.value.1)
                                 else old(pindex.undo))
              && pindex.fScriptsValid == (old(pindex.fScriptsValid)
                                          || (c.Some? && (old(pindex.undo).Some? || io.undoWriteOk)))
    ensures r.Connected? ==> view.Best() == view.pindexTip == pindex
  {
    hide ViewCache.Contents, ViewCache.Best;
    if pindex.pprev == null {
      // The genesis block: its transactions are skipped.
      var wellFormed := CheckBlock(pindex.block);
      if !wellFormed {
        return Rejected;
      }
      view.SetBestBlock(pindex);
      return Connected;
    }
    var ok, blockundo := ConnectCoins(rules, view, pindex.block, pindex.nHeight, threads);
    if !ok {
      return Rejected;
    }
    if pindex.undo.None? || !pindex.fScriptsValid {
      if pindex.undo.None? {
        if !io.undoWriteOk {
          return IoError;
        }
        pindex.undo := Some(blockundo);
      }
      pindex.fScriptsValid := true;
      if !io.indexWriteOk {
        return IoError;
      }
    }
    if !io.txIndexOk {
      return IoError;
    }
    view.SetBestBlock(pindex);
    return Connected;
  }

  // ---------- disconnecting

  function AndClean(r: Option<(CoinMap, bool)>, clean: bool): Option<(CoinMap, bool)> {
    match r
    case None => None
    case Some((m, c)) => Some((m, c && clean))
  }

  method RestoreInput(view: ViewCache, out: OutPoint, undo: TxInUndo) returns (clean: bool)
    requires view.Valid()
    modifies view.views
    ensures (view.Contents(), clean) == RestoreOne(old(view.Contents()), out, undo)
    ensures view.Best() == old(view.Best()) && view.BelowKept()
  {
    hide ViewCache.Contents, ViewCache.Best;
    clean := true;
    var found := view.GetCoins(out.hash);
    var coins := if found.Some? then found.value else EMPTY_COINS;
    if undo.nHeight != 0 {
      // The record stands for a whole entry, which must have been used up.
      if !coins.IsPruned() {
        clean := false;
      }
      coins := EMPTY_COINS.(fCoinBase := undo.fCoinBase, nHeight := ToInt(undo.nHeight), nVersion := undo.nVersion);
    } else if coins.IsPruned() {
      clean := false;
    }
    if coins.IsAvailable(out.n) {
      clean := false;
    }
    if |coins.vout| < out.n + 1 {
      coins := coins.(vout := coins.vout + seq(out.n + 1 - |coins.vout|, i => NULL_OUT));
    }
    coins := coins.(vout := coins.vout[out.n := undo.txout]);
    view.SetCoins(out.hash, coins);
  }

  method RestoreTxInputs(view: ViewCache, vin: seq<TxIn>, txundo: TxUndo) returns (clean: bool)
    requires view.Valid() && |vin| == |txundo|
    modifies view.views
    ensures (view.Contents(), clean) == RestoreInputs(old(view.Contents()), vin, txundo)
    ensures view.Best() == old(view.Best()) && view.BelowKept()
  {
    hide ViewCache.Contents, ViewCache.Best;
    clean := true;
    var j := |vin|;
    assert vin[..j] == vin && txundo[..j] == txundo;
    while j > 0
      invariant 0 <= j <= |vin|
      invariant view.Best() == old(view.Best()) && view.BelowKept()
      invariant var (m, c) := RestoreInputs(view.Contents(), vin[..j], txundo[..j]);
                (m, c && clean) == RestoreInputs(old(view.Contents()), vin, txundo)
    {
      j := j - 1;
      assert vin[..j + 1][..j] == vin[..j] && txundo[..j + 1][..j] == txundo[..j];
      var ok := RestoreInput(view, vin[j].prevout, txundo[j]);
      clean := clean && ok;
    }
  }

  method RemoveTxOutputs(view: ViewCache, tx: Tx, height: int) returns (clean: bool)
    requires view.Valid()
    modifies view.views
    ensures (view.Contents(), clean) == RemoveOutputs(old(view.Contents()), tx, height)
    ensures view.Best() == old(view.Best()) && view.BelowKept()
  {
    hide ViewCache.Contents, ViewCache.Best;
    clean := true;
    var found := view.HaveCoins(tx.hash);
    if !found {
      clean := false;
      view.SetCoins(tx.hash, EMPTY_COINS);
    }
    var outs := view.GetCoins(tx.hash);
    var outsBlock := FromTx(tx, height);
    var have := outs.value;
    if outsBlock.nVersion < 0 {
      have := have.(nVersion := outsBlock.nVersion);
    }
    if have != outsBlock {
      clean := false;
    }
    ghost var m := view.Contents();
    view.SetCoins(tx.hash, EMPTY_COINS);
    assert m[tx.hash := EMPTY_COINS] == old(view.Contents())[tx.hash := EMPTY_COINS];
  }

  /** The undo records of the first n transactions. */
  function UndoFor(undo: BlockUndo, n: nat): BlockUndo
    requires n <= |undo| + 1
  {
    if n == 0 then [] else undo[..n - 1]
  }

  lemma NothingLeft(m: CoinMap, height: int)
    ensures DisconnectTxs(m, [], [], height) == Some((m, true))
  {
  }

  /** One round of the loop, last transaction first. */
  lemma DisconnectRound(m: CoinMap, vtx: seq<Tx>, undo: BlockUndo, n: nat, height: int)
    requires |undo| + 1 == |vtx| && n < |vtx|
    ensures DisconnectTxs(m, vtx[..n + 1], UndoFor(undo, n + 1), height) ==
            var (m1, clean1) := RemoveOutputs(m, vtx[n], height);
            if n == 0 then AndClean(DisconnectTxs(m1, [], [], height), clean1)
            else if |undo[n - 1]| != |vtx[n].vin| then None
            else
              var (m2, clean2) := RestoreInputs(m1, vtx[n].vin, undo[n - 1]);
              AndClean(DisconnectTxs(m2, vtx[..n], UndoFor(undo, n), height), clean1 && clean2)
  {
    hide RemoveOutputs, RestoreInputs;
    assert vtx[..n + 1][..n] == vtx[..n];
    if n > 0 {
      assert undo[..n][..n - 1] == UndoFor(undo, n) && undo[..n][n - 1] == undo[n - 1];
    }
  }

  method DisconnectCoins(view: ViewCache, vtx: seq<Tx>, undo: BlockUndo, height: int) returns (r: Option<bool>)
    requires view.Valid() && |undo| + 1 == |vtx|
    modifies view.views
    ensures view.Best() == old(view.Best()) && view.BelowKept()
    ensures match DisconnectTxs(old(view.Contents()), vtx, undo, height)
            case None => r == None
            case Some((m, c)) => view.Contents() == m && r == Some(c)
  {
    hide ViewCache.Contents, ViewCache.Best, DisconnectTxs, RemoveOutputs, RestoreInputs;
    var fClean := true;
    var n := |vtx|;
    ghost var m0 := view.Contents();
    assert vtx[..n] == vtx && UndoFor(undo, n) == undo;
    while n > 0
      invariant 0 <= n <= |vtx|
      invariant view.Best() == old(view.Best()) && view.BelowKept()
      invariant DisconnectTxs(m0, vtx, undo, height) ==
                AndClean(DisconnectTxs(view.Contents(), vtx[..n], UndoFor(undo, n), height), fClean)
    {
      n := n - 1;
      var tx := vtx[n];
      DisconnectRound(view.Contents(), vtx, undo, n, height);
      var clean1 := RemoveTxOutputs(view, tx, height);
      if n > 0 {
        if |undo[n - 1]| != |tx.vin| {
          return None;
        }
        var clean2 := RestoreTxInputs(view, tx.vin, undo[n - 1]);
        fClean := fClean && clean1 && clean2;
      } else {
        fClean := fClean && clean1;
      }
    }
    assert vtx[..0] == [];
    NothingLeft(view.Contents(), height);
    return Some(fClean);
  }

  /** DisconnectBlock: None for an error, otherwise whether the coins were found as the block left them. */
  method DisconnectIndexed(view: ViewCache, pindex: BlockIndex, io: BlockIo) returns (r: Option<bool>)
    requires view.Valid() && pindex.pprev != null && view.Best() == pindex
    modifies view.views
    ensures view.BelowKept()
    ensures r.Some? <==> io.undoReadOk && pindex.undo.Some?
                         && DisconnectBlock(old(view.Contents()), pindex.block.vtx, pindex.undo.value,
                                            pindex.nHeight).Some?
    ensures r.Some? ==>
              && view.Best() == pindex.pprev
              && DisconnectBlock(old(view.Contents()), pindex.block.vtx, pindex.undo.value, pindex.nHeight)
                 == Some((view.Contents(), r.value))
  {
    hide ViewCache.Contents, ViewCache.Best;
    if pindex.undo.None? {
      return None;
    }
    if !io.undoReadOk {
      return None;
    }
    var blockUndo := pindex.undo.value;
    if |blockUndo| + 1 != |pindex.block.vtx| {
      return None;
    }
    r := DisconnectCoins(view, pindex.block.vtx, blockUndo, pindex.nHeight);
    if r.Some? {
      view.SetBestBlock(pindex.pprev);
    }
  }
}
