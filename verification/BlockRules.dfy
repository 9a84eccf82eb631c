/** Which blocks connect to a given set of unspent coins, and with what result: the checks of ConnectBlock and
    CheckInputs as functions of the coins. */
module BlockRules {
  import opened Basics
  import opened Transactions
  import opened CoinsRules
  import opened Ledger
  import opened Subsidy

  const BIP16_SWITCH_TIME: int := 1_349_049_600

  /** Script evaluation and signature-operation counting are foreign code; `scriptChecksFrom` is
      GetTotalBlocksEstimate. */
  datatype Rules = Rules(p2shSigOps: (TxOut, TxIn) -> nat, scriptOk: (TxOut, Tx, nat, bool) -> bool,
                         scriptChecksFrom: nat)

  /** What stays fixed while one block is connected. `maxSigOps` bounds its signature operations. */
  datatype Ctx = Ctx(rules: Rules, height: nat, strict: bool, scripts: bool, maxSigOps: nat)

  function CtxFor(rules: Rules, b: Block, height: nat): Ctx {
    Ctx(rules, height, b.nTime >= BIP16_SWITCH_TIME, height >= rules.scriptChecksFrom, MAX_BLOCK_SIGOPS)
  }

  /** GetOutputFor, null where its assertion would fire. */
  function PrevOut(m: CoinMap, o: OutPoint): TxOut {
    if Available(m, o) then m[o.hash].vout[o.n] else NULL_OUT
  }

  function ValueIn(m: CoinMap, vin: seq<TxIn>): int {
    if vin == [] then 0 else ValueIn(m, vin[..|vin| - 1]) + PrevOut(m, vin[|vin| - 1].prevout).nValue
  }

  function P2SHSigOps(rules: Rules, m: CoinMap, vin: seq<TxIn>): nat {
    if vin == [] then 0
    else P2SHSigOps(rules, m, vin[..|vin| - 1])
         + rules.p2shSigOps(PrevOut(m, vin[|vin| - 1].prevout), vin[|vin| - 1])
  }

  predicate Mature(c: Coins, height: nat) {
    c.fCoinBase ==> height - c.nHeight >= COINBASE_MATURITY
  }

  predicate InputPasses(height: nat, m: CoinMap, vin: seq<TxIn>, i: nat)
    requires i < |vin|
  {
    && Mature(At(m, vin[i].prevout.hash), height)
    && MoneyRange(PrevOut(m, vin[i].prevout).nValue)
    && MoneyRange(ValueIn(m, vin[..i + 1]))
  }

  /** The money part of CheckInputs. */
  predicate ValuesPass(height: nat, m: CoinMap, tx: Tx) {
    && HaveInputs(m, tx.vin)
    && (forall i :: 0 <= i < |tx.vin| ==> InputPasses(height, m, tx.vin, i))
    && ValueIn(m, tx.vin) >= ValueSum(tx.vout)
    && MoneyRange(ValueIn(m, tx.vin) - ValueSum(tx.vout))
  }

  predicate ScriptsPass(ctx: Ctx, m: CoinMap, tx: Tx) {
    ScriptsPassUpTo(ctx, m, tx, |tx.vin|)
  }

  predicate ScriptsPassUpTo(ctx: Ctx, m: CoinMap, tx: Tx, n: nat)
    requires n <= |tx.vin|
  {
    forall i :: 0 <= i < n ==> ctx.rules.scriptOk(PrevOut(m, tx.vin[i].prevout), tx, i, ctx.strict)
  }

  /** The running state of ConnectBlock's loop over transactions. */
  datatype Acc = Acc(m: CoinMap, undo: BlockUndo, fees: int, sigOps: nat)

  /** The fee of a transaction and the signature operations counted so far, or None when a check fails. */
  function TxChecks(ctx: Ctx, m: CoinMap, tx: Tx, sigOps: nat): Option<(int, nat)> {
    var ops := sigOps + tx.sigOps;
    if ops > ctx.maxSigOps then None
    else if tx.IsCoinBase() then Some((0, ops))
    else if !HaveInputs(m, tx.vin) then None
    else
      var ops2 := if ctx.strict then ops + P2SHSigOps(ctx.rules, m, tx.vin) else ops;
      if ops2 > ctx.maxSigOps || !ValuesPass(ctx.height, m, tx) || (ctx.scripts && !ScriptsPass(ctx, m, tx))
      then None
      else Some((ValueIn(m, tx.vin) - ValueSum(tx.vout), ops2))
  }

  function TxStep(ctx: Ctx, acc: Acc, tx: Tx): Option<Acc> {
    match TxChecks(ctx, acc.m, tx, acc.sigOps)
    case None => None
    case Some((fee, ops)) =>
      var (m', undo) := UpdateCoins(acc.m, tx, ctx.height);
      Some(Acc(m', if tx.IsCoinBase() then acc.undo else acc.undo + [undo], acc.fees + fee, ops))
  }

  function Run(ctx: Ctx, m: CoinMap, txs: seq<Tx>): Option<Acc> {
    if txs == [] then Some(Acc(m, [], 0, 0))
    else
      match Run(ctx, m, txs[..|txs| - 1])
      case None => None
      case Some(acc) => TxStep(ctx, acc, txs[|txs| - 1])
  }

  /** The BIP30 rule. */
  ghost predicate NoOverwrite(m: CoinMap, txs: seq<Tx>) {
    forall i :: 0 <= i < |txs| ==> At(m, txs[i].hash) == EMPTY_COINS
  }

  /** The coins after the block and its undo data, or None when the block breaks a rule. */
  ghost function Connect(rules: Rules, m: CoinMap, b: Block, height: nat): Option<(CoinMap, BlockUndo)>
    requires 1 <= height
  {
    if !WellFormedBlock(b) || !NoOverwrite(m, b.vtx) then None
    else
      match Run(CtxFor(rules, b, height), m, b.vtx)
      case None => None
      case Some(acc) =>
        if ValueSum(b.vtx[0].vout) > GetBlockValue(height - 1, acc.fees) then None else Some((acc.m, acc.undo))
  }

  // ---------- only the unspent coins matter

  lemma {:induction false} ReadsSame(rules: Rules, m1: CoinMap, m2: CoinMap, vin: seq<TxIn>)
    requires Same(m1, m2)
    ensures HaveInputs(m1, vin) <==> HaveInputs(m2, vin)
    ensures forall o :: PrevOut(m1, o) == PrevOut(m2, o)
    ensures ValueIn(m1, vin) == ValueIn(m2, vin)
    ensures P2SHSigOps(rules, m1, vin) == P2SHSigOps(rules, m2, vin)
  {
    forall o ensures Available(m1, o) <==> Available(m2, o)
             ensures PrevOut(m1, o) == PrevOut(m2, o)
    {
      SameAvailable(m1, m2, o);
    }
    if vin != [] {
      ReadsSame(rules, m1, m2, vin[..|vin| - 1]);
    }
  }

  lemma ValuesPassSame(height: nat, m1: CoinMap, m2: CoinMap, rules: Rules, tx: Tx)
    requires Same(m1, m2) && ValuesPass(height, m1, tx)
    ensures ValuesPass(height, m2, tx)
  {
    ReadsSame(rules, m1, m2, tx.vin);
    forall i | 0 <= i < |tx.vin| ensures InputPasses(height, m2, tx.vin, i) {
      assert InputPasses(height, m1, tx.vin, i);
      ReadsSame(rules, m1, m2, tx.vin[..i + 1]);
    }
  }

  lemma TxStepSame(ctx: Ctx, a1: Acc, a2: Acc, tx: Tx)
    requires Same(a1.m, a2.m) && a2 == a1.(m := a2.m)
    ensures match TxStep(ctx, a1, tx)
            case None => TxStep(ctx, a2, tx).None?
            case Some(r1) => TxStep(ctx, a2, tx).Some?
                             && var r2 := TxStep(ctx, a2, tx).value; Same(r1.m, r2.m) && r2 == r1.(m := r2.m)
  {
    ReadsSame(ctx.rules, a1.m, a2.m, tx.vin);
    UpdateCoinsSame(a1.m, a2.m, tx, ctx.height);
    if ValuesPass(ctx.height, a1.m, tx) {
      ValuesPassSame(ctx.height, a1.m, a2.m, ctx.rules, tx);
    }
    if ValuesPass(ctx.height, a2.m, tx) {
      ValuesPassSame(ctx.height, a2.m, a1.m, ctx.rules, tx);
    }
    assert ScriptsPass(ctx, a1.m, tx) <==> ScriptsPass(ctx, a2.m, tx);
    assert TxChecks(ctx, a1.m, tx, a1.sigOps) == TxChecks(ctx, a2.m, tx, a2.sigOps);
  }

  lemma {:induction false} RunSame(ctx: Ctx, m1: CoinMap, m2: CoinMap, txs: seq<Tx>)
    requires Same(m1, m2)
    ensures match Run(ctx, m1, txs)
            case None => Run(ctx, m2, txs).None?
            case Some(r1) => Run(ctx, m2, txs).Some?
                             && var r2 := Run(ctx, m2, txs).value; Same(r1.m, r2.m) && r2 == r1.(m := r2.m)
  {
    if txs != [] {
      var front := txs[..|txs| - 1];
      RunSame(ctx, m1, m2, front);
      if Run(ctx, m1, front).Some? {
        TxStepSame(ctx, Run(ctx, m1, front).value, Run(ctx, m2, front).value, txs[|txs| - 1]);
      }
    }
  }

  /** Whether a block connects, its undo data and the resulting unspent coins depend on nothing but the unspent
      coins before it. */
  lemma ConnectSame(rules: Rules, m1: CoinMap, m2: CoinMap, b: Block, height: nat)
    requires Same(m1, m2) && 1 <= height
    ensures match Connect(rules, m1, b, height)
            case None => Connect(rules, m2, b, height).None?
            case Some((n1, undo1)) => Connect(rules, m2, b, height).Some?
                                      && var (n2, undo2) := Connect(rules, m2, b, height).value;
                                      Same(n1, n2) && undo1 == undo2
  {
    assert NoOverwrite(m1, b.vtx) <==> NoOverwrite(m2, b.vtx);
    RunSame(CtxFor(rules, b, height), m1, m2, b.vtx);
  }

  // ---------- what a run keeps

  /** The part of block validity that the undo argument needs, for a prefix of the transactions. */
  ghost predicate Undoable(m: CoinMap, txs: seq<Tx>) {
    && (forall i :: 0 <= i < |txs| ==> WellFormed(txs[i]))
    && (forall i :: 0 <= i < |txs| ==> (txs[i].IsCoinBase() <==> i == 0))
    && (forall i, j :: 0 <= i < j < |txs| ==> txs[i].hash != txs[j].hash)
    && NoOverwrite(m, txs)
  }

  lemma {:induction false} RunKeeps(ctx: Ctx, m: CoinMap, txs: seq<Tx>)
    requires GoodMap(m) && 1 <= ctx.height < INT_LIMIT
    requires Undoable(m, txs) && Run(ctx, m, txs).Some?
    ensures var acc := Run(ctx, m, txs).value;
            && GoodMap(acc.m)
            && |acc.undo| == (if txs == [] then 0 else |txs| - 1)
            && forall id :: At(m, id) == EMPTY_COINS && (forall i :: 0 <= i < |txs| ==> txs[i].hash != id)
                 ==> At(acc.m, id) == EMPTY_COINS
  {
    if txs != [] {
      var front, tx := txs[..|txs| - 1], txs[|txs| - 1];
      RunKeeps(ctx, m, front);
      UpdateCoinsGood(Run(ctx, m, front).value.m, tx, ctx.height);
      forall id | At(m, id) == EMPTY_COINS && (forall i :: 0 <= i < |txs| ==> txs[i].hash != id)
        ensures At(Run(ctx, m, txs).value.m, id) == EMPTY_COINS
      {
        assert forall i :: 0 <= i < |front| ==> front[i].hash == txs[i].hash;
      }
    }
  }

  /** One round of the disconnect loop, against the last transaction of a run. */
  lemma RoundUndoes(ctx: Ctx, before: Acc, tx: Tx, now: CoinMap) returns (back: CoinMap)
    requires GoodMap(before.m) && WellFormed(tx) && 1 <= ctx.height < INT_LIMIT && !tx.IsCoinBase()
    requires At(before.m, tx.hash) == EMPTY_COINS
    requires TxStep(ctx, before, tx).Some? && Same(now, TxStep(ctx, before, tx).value.m)
    ensures var undo := TxStep(ctx, before, tx).value.undo;
            && |undo| == |before.undo| + 1
            && undo[..|before.undo|] == before.undo
            && |undo[|before.undo|]| == |tx.vin|
            && RemoveOutputs(now, tx, ctx.height).1
            && RestoreInputs(RemoveOutputs(now, tx, ctx.height).0, tx.vin, undo[|before.undo|]) == (back, true)
    ensures Same(back, before.m)
  {
    DisconnectTxUndoes(before.m, tx, ctx.height, now);
    var undo := UpdateCoins(before.m, tx, ctx.height).1;
    back := RestoreInputs(RemoveOutputs(now, tx, ctx.height).0, tx.vin, undo).0;
  }

  lemma UndoableFront(ctx: Ctx, m: CoinMap, txs: seq<Tx>)
    requires GoodMap(m) && 1 <= ctx.height < INT_LIMIT && txs != []
    requires Undoable(m, txs) && Run(ctx, m, txs).Some?
    ensures var front := txs[..|txs| - 1];
            && Undoable(m, front)
            && Run(ctx, m, front).Some?
            && GoodMap(Run(ctx, m, front).value.m)
            && At(Run(ctx, m, front).value.m, txs[|txs| - 1].hash) == EMPTY_COINS
            && |Run(ctx, m, front).value.undo| == (if front == [] then 0 else |front| - 1)
  {
    var front := txs[..|txs| - 1];
    assert forall i :: 0 <= i < |front| ==> front[i] == txs[i];
    RunKeeps(ctx, m, front);
  }

  lemma {:induction false} RunUndoes(ctx: Ctx, m: CoinMap, txs: seq<Tx>, now: CoinMap)
    requires GoodMap(m) && 1 <= ctx.height < INT_LIMIT && txs != []
    requires Undoable(m, txs) && Run(ctx, m, txs).Some?
    requires Same(now, Run(ctx, m, txs).value.m)
    ensures |Run(ctx, m, txs).value.undo| + 1 == |txs|
    ensures var r := DisconnectTxs(now, txs, Run(ctx, m, txs).value.undo, ctx.height);
            r.Some? && r.value.1 && Same(r.value.0, m)
  {
    var last := |txs| - 1;
    UndoableFront(ctx, m, txs);
    var before := Run(ctx, m, txs[..last]).value;
    if last == 0 {
      DisconnectTxUndoes(before.m, txs[0], ctx.height, now);
    } else {
      hide WellFormed, GoodMap, NoOverwrite, Same, TxStep, RemoveOutputs, RestoreInputs, Tx.IsCoinBase;
      var back := RoundUndoes(ctx, before, txs[last], now);
      RunUndoes(ctx, m, txs[..last], back);
    }
  }

  /** A block that connects can be disconnected with the undo data it produced: from any coins equivalent to the
      result, cleanly, and back to coins equivalent to the start. In-block spends and several inputs from one
      transaction are included. */
  lemma DisconnectUndoesConnect(rules: Rules, m: CoinMap, b: Block, height: nat, now: CoinMap)
    requires GoodMap(m) && 1 <= height < INT_LIMIT
    requires Connect(rules, m, b, height).Some?
    requires Same(now, Connect(rules, m, b, height).value.0)
    ensures GoodMap(Connect(rules, m, b, height).value.0)
    ensures var r := DisconnectBlock(now, b.vtx, Connect(rules, m, b, height).value.1, height);
            r.Some? && r.value.1 && Same(r.value.0, m)
  {
    RunKeeps(CtxFor(rules, b, height), m, b.vtx);
    RunUndoes(CtxFor(rules, b, height), m, b.vtx, now);
  }

  /** Each Spend that UpdateCoins makes finds its output, the earlier inputs already spent. */
  ghost predicate SpendsSucceed(m: CoinMap, vin: seq<TxIn>) {
    forall k :: 0 <= k < |vin| ==> Available(SpendInputs(m, vin[..k]).0, vin[k].prevout)
  }

  /** For every transaction of a block that connects, no assertion of UpdateCoins fires. */
  lemma NoAssertionFires(rules: Rules, m: CoinMap, b: Block, height: nat, i: nat)
    requires GoodMap(m) && 1 <= height < INT_LIMIT
    requires Connect(rules, m, b, height).Some? && 1 <= i < |b.vtx|
    ensures Run(CtxFor(rules, b, height), m, b.vtx[..i]).Some?
    ensures SpendsSucceed(Run(CtxFor(rules, b, height), m, b.vtx[..i]).value.m, b.vtx[i].vin)
  {
    var ctx := CtxFor(rules, b, height);
    RunStep(ctx, m, b.vtx, i);
    UndoablePrefix(m, b, i);
    hide Connect, Run, TxStep, WellFormed, GoodMap, SpendsSucceed, NoOverwrite, Undoable;
    RunKeeps(ctx, m, b.vtx[..i]);
    StepSpends(ctx, Run(ctx, m, b.vtx[..i]).value, b.vtx[i]);
  }

  lemma UndoablePrefix(m: CoinMap, b: Block, i: nat)
    requires WellFormedBlock(b) && NoOverwrite(m, b.vtx) && i <= |b.vtx|
    ensures Undoable(m, b.vtx[..i])
  {
    hide WellFormed, Tx.IsCoinBase;
    var front := b.vtx[..i];
    assert forall k :: 0 <= k < i ==> front[k] == b.vtx[k];
  }

  lemma RunStep(ctx: Ctx, m: CoinMap, txs: seq<Tx>, i: nat)
    requires Run(ctx, m, txs).Some? && i < |txs|
    ensures Run(ctx, m, txs[..i]).Some? && TxStep(ctx, Run(ctx, m, txs[..i]).value, txs[i]).Some?
  {
    hide TxStep;
    PrefixesRun(ctx, m, txs, i);
    PrefixesRun(ctx, m, txs, i + 1);
    assert txs[..i + 1][..i] == txs[..i];
  }

  lemma StepSpends(ctx: Ctx, acc: Acc, tx: Tx)
    requires GoodMap(acc.m) && WellFormed(tx) && !tx.IsCoinBase() && TxStep(ctx, acc, tx).Some?
    ensures SpendsSucceed(acc.m, tx.vin)
  {
    forall k | 0 <= k < |tx.vin| ensures Available(SpendInputs(acc.m, tx.vin[..k]).0, tx.vin[k].prevout) {
      NoSpendRefused(acc.m, tx.vin, k);
    }
  }

  lemma {:induction false} PrefixesRun(ctx: Ctx, m: CoinMap, txs: seq<Tx>, i: nat)
    requires Run(ctx, m, txs).Some? && i <= |txs|
    ensures Run(ctx, m, txs[..i]).Some?
  {
    if i < |txs| {
      PrefixesRun(ctx, m, txs[..|txs| - 1], i);
      assert txs[..|txs| - 1][..i] == txs[..i];
    } else {
      assert txs[..i] == txs;
    }
  }
}
