/** What it means for a block to connect, said without the running state of the loop: every rule as a statement about
    the block and the coins before each of its transactions. */
module BlockMeaning {
  import opened Basics
  import opened Transactions
  import opened CoinsRules
  import opened Ledger
  import opened BlockRules
  import opened Subsidy

  /** The coins before transaction i. */
  function CoinsBefore(m: CoinMap, vtx: seq<Tx>, height: int, i: nat): CoinMap
    requires i <= |vtx|
  {
    if i == 0 then m else UpdateCoins(CoinsBefore(m, vtx, height, i - 1), vtx[i - 1], height).0
  }

  // ---------- one transaction

  predicate Unspent(m: CoinMap, o: OutPoint) {
    o.hash in m && o.n < |m[o.hash].vout| && m[o.hash].vout[o.n].nValue != -1
  }

  function OutputAt(m: CoinMap, o: OutPoint): TxOut
    requires Unspent(m, o)
  {
    m[o.hash].vout[o.n]
  }

  /** The value of the first k inputs. */
  function InputValue(m: CoinMap, tx: Tx, k: nat): int
    requires k <= |tx.vin| && forall j :: 0 <= j < |tx.vin| ==> Unspent(m, tx.vin[j].prevout)
  {
    if k == 0 then 0 else InputValue(m, tx, k - 1) + OutputAt(m, tx.vin[k - 1].prevout).nValue
  }

  function OutputValue(tx: Tx, k: nat): int
    requires k <= |tx.vout|
  {
    if k == 0 then 0 else OutputValue(tx, k - 1) + tx.vout[k - 1].nValue
  }

  function Fee(m: CoinMap, tx: Tx): int
    requires forall j :: 0 <= j < |tx.vin| ==> Unspent(m, tx.vin[j].prevout)
  {
    InputValue(m, tx, |tx.vin|) - OutputValue(tx, |tx.vout|)
  }

  /** A coinbase output must be old enough, and its value and the inputs' running sum must be money. */
  predicate InputMeets(m: CoinMap, tx: Tx, height: int, j: nat)
    requires j < |tx.vin| && forall k :: 0 <= k < |tx.vin| ==> Unspent(m, tx.vin[k].prevout)
  {
    assert Unspent(m, tx.vin[j].prevout);
    && (m[tx.vin[j].prevout.hash].fCoinBase ==> height - m[tx.vin[j].prevout.hash].nHeight >= 100)
    && 0 <= OutputAt(m, tx.vin[j].prevout).nValue <= 22_000_000_000_000_000
    && 0 <= InputValue(m, tx, j + 1) <= 22_000_000_000_000_000
  }

  /** Every input is there and in order, and the fee is money. */
  predicate Affordable(m: CoinMap, tx: Tx, height: int) {
    && (forall j :: 0 <= j < |tx.vin| ==> Unspent(m, tx.vin[j].prevout))
    && (forall j :: 0 <= j < |tx.vin| ==> InputMeets(m, tx, height, j))
    && 0 <= Fee(m, tx) <= 22_000_000_000_000_000
  }

  predicate ScriptsAgree(rules: Rules, m: CoinMap, tx: Tx, strict: bool)
    requires forall j :: 0 <= j < |tx.vin| ==> Unspent(m, tx.vin[j].prevout)
  {
    forall j :: 0 <= j < |tx.vin| ==> rules.scriptOk(OutputAt(m, tx.vin[j].prevout), tx, j, strict)
  }

  /** The operations of the scripts behind the first k inputs. */
  function HiddenSigOps(rules: Rules, m: CoinMap, tx: Tx, k: nat): nat
    requires k <= |tx.vin| && forall j :: 0 <= j < |tx.vin| ==> Unspent(m, tx.vin[j].prevout)
  {
    if k == 0 then 0
    else HiddenSigOps(rules, m, tx, k - 1) + rules.p2shSigOps(OutputAt(m, tx.vin[k - 1].prevout), tx.vin[k - 1])
  }

  /** Where an output came from: whether a coinbase made it, at which height, and its transaction's version. */
  function OriginOf(m: CoinMap, o: OutPoint): (bool, int, int)
    requires Unspent(m, o)
  {
    (m[o.hash].fCoinBase, m[o.hash].nHeight, m[o.hash].nVersion)
  }

  lemma SpendsOne(m: CoinMap, o: OutPoint, p: OutPoint)
    requires GoodMap(m) && Unspent(m, o)
    ensures GoodMap(SpendOne(m, o).0)
    ensures Unspent(SpendOne(m, o).0, p) <==> Unspent(m, p) && p != o
    ensures Unspent(SpendOne(m, o).0, p) ==>
              OutputAt(SpendOne(m, o).0, p) == OutputAt(m, p) && OriginOf(SpendOne(m, o).0, p) == OriginOf(m, p)
  {
    SpendOneFacts(m, o);
    AvailableAt(m, o);
    assert Stored(At(m, o.hash));
    SpentStays(m[o.hash], o.n);
    var after := SpentCoins(m[o.hash], o.n);
    assert p.hash == o.hash ==> (after.IsAvailable(p.n) <==> m[o.hash].IsAvailable(p.n) && p.n != o.n);
    hide Trimmed, SpentCoins, SpendUndo;
  }

  lemma {:induction false} SpendsInputs(m: CoinMap, vin: seq<TxIn>, k: nat, p: OutPoint)
    requires GoodMap(m) && HaveInputs(m, vin) && DistinctInputs(vin) && k <= |vin|
    ensures var after := SpendInputs(m, vin[..k]).0;
            && GoodMap(after)
            && (Unspent(after, p) <==> Unspent(m, p) && forall i :: 0 <= i < k ==> vin[i].prevout != p)
            && (Unspent(after, p) ==> OutputAt(after, p) == OutputAt(m, p) && OriginOf(after, p) == OriginOf(m, p))
  {
    if k > 0 {
      SpendsInputs(m, vin, k - 1, p);
      assert vin[..k][..k - 1] == vin[..k - 1];
      NoSpendRefused(m, vin, k - 1);
      SpendsOne(SpendInputs(m, vin[..k - 1]).0, vin[k - 1].prevout, p);
      hide Unspent, OutputAt, OriginOf, SpendOne;
    }
  }

  /** Applying a transaction: its inputs go, its outputs come, at this height and with its version, and everything
      else stays as it was. */
  lemma UpdateCoinsIs(m: CoinMap, tx: Tx, height: int, p: OutPoint)
    requires GoodMap(m) && DistinctInputs(tx.vin) && (tx.IsCoinBase() || HaveInputs(m, tx.vin))
    ensures var coinbase := |tx.vin| == 1 && tx.vin[0].prevout == OutPoint(0, 0xFFFF_FFFF);
            var after := UpdateCoins(m, tx, height).0;
            if p.hash == tx.hash then
              && (Unspent(after, p) <==> p.n < |tx.vout| && tx.vout[p.n].nValue != -1)
              && (Unspent(after, p) ==>
                    OutputAt(after, p) == tx.vout[p.n] && OriginOf(after, p) == (coinbase, height, tx.nVersion))
            else
              && (Unspent(after, p) <==>
                    Unspent(m, p) && (coinbase || forall i :: 0 <= i < |tx.vin| ==> tx.vin[i].prevout != p))
              && (Unspent(after, p) ==> OutputAt(after, p) == OutputAt(m, p) && OriginOf(after, p) == OriginOf(m, p))
  {
    if !tx.IsCoinBase() {
      SpendsInputs(m, tx.vin, |tx.vin|, p);
      assert tx.vin[..|tx.vin|] == tx.vin;
    }
    hide SpendInputs;
  }

  // ---------- the block

  /** Transaction i is affordable when its turn comes. */
  predicate Pays(m: CoinMap, vtx: seq<Tx>, height: int, i: nat)
    requires i < |vtx|
  {
    Affordable(CoinsBefore(m, vtx, height, i), vtx[i], height)
  }

  predicate ScriptsMeet(rules: Rules, m: CoinMap, vtx: seq<Tx>, height: int, strict: bool, i: nat)
    requires i < |vtx| && Pays(m, vtx, height, i)
  {
    ScriptsAgree(rules, CoinsBefore(m, vtx, height, i), vtx[i], strict)
  }

  /** What each transaction after the coinbase must meet, and the sums over the first n transactions. */
  predicate AllMeet(rules: Rules, m: CoinMap, vtx: seq<Tx>, height: int, strict: bool, scripts: bool, n: nat)
    requires n <= |vtx|
  {
    && (forall i :: 1 <= i < n ==> Pays(m, vtx, height, i))
    && (scripts ==> forall i :: 1 <= i < n ==> ScriptsMeet(rules, m, vtx, height, strict, i))
  }

  function Fees(m: CoinMap, vtx: seq<Tx>, height: int, n: nat): int
    requires n <= |vtx| && forall i :: 1 <= i < n ==> Pays(m, vtx, height, i)
  {
    if n <= 1 then 0
    else
      assert Pays(m, vtx, height, n - 1);
      Fees(m, vtx, height, n - 1) + Fee(CoinsBefore(m, vtx, height, n - 1), vtx[n - 1])
  }

  function SigOps(rules: Rules, m: CoinMap, vtx: seq<Tx>, height: int, strict: bool, n: nat): nat
    requires n <= |vtx| && forall i :: 1 <= i < n ==> Pays(m, vtx, height, i)
  {
    if n == 0 then 0
    else
      SigOps(rules, m, vtx, height, strict, n - 1) + vtx[n - 1].sigOps
      + if strict && n > 1 then
          assert Pays(m, vtx, height, n - 1);
          HiddenSigOps(rules, CoinsBefore(m, vtx, height, n - 1), vtx[n - 1], |vtx[n - 1].vin|)
        else 0
  }

  /** Signatures are checked from a fixed height on, and pay-to-script-hash counts from a fixed time on. */
  ghost predicate MeetsRules(rules: Rules, m: CoinMap, b: Block, height: nat)
    requires 1 <= height
  {
    var strict, scripts := b.nTime >= 1_349_049_600, height >= rules.scriptChecksFrom;
    && WellFormedBlock(b)
    && (forall i, k: nat :: 0 <= i < |b.vtx| ==> !Unspent(m, OutPoint(b.vtx[i].hash, k)))
    && AllMeet(rules, m, b.vtx, height, strict, scripts, |b.vtx|)
    && SigOps(rules, m, b.vtx, height, strict, |b.vtx|) <= 4000
    && OutputValue(b.vtx[0], |b.vtx[0].vout|)
       <= GetBlockValue(height - 1, 0) + Fees(m, b.vtx, height, |b.vtx|)
  }

  lemma {:induction false} OutputValueIs(tx: Tx, k: nat)
    requires k <= |tx.vout|
    ensures OutputValue(tx, k) == ValueSum(tx.vout[..k])
  {
    if k > 0 {
      OutputValueIs(tx, k - 1);
      assert tx.vout[..k][..k - 1] == tx.vout[..k - 1];
    }
  }

  lemma {:induction false} InputSumsAre(rules: Rules, m: CoinMap, tx: Tx, k: nat)
    requires k <= |tx.vin| && forall j :: 0 <= j < |tx.vin| ==> Unspent(m, tx.vin[j].prevout)
    ensures InputValue(m, tx, k) == ValueIn(m, tx.vin[..k])
    ensures HiddenSigOps(rules, m, tx, k) == P2SHSigOps(rules, m, tx.vin[..k])
  {
    if k > 0 {
      InputSumsAre(rules, m, tx, k - 1);
      assert tx.vin[..k][..k - 1] == tx.vin[..k - 1];
      assert Unspent(m, tx.vin[k - 1].prevout);
    }
  }

  lemma SumsAre(rules: Rules, m: CoinMap, tx: Tx)
    requires forall j :: 0 <= j < |tx.vin| ==> Unspent(m, tx.vin[j].prevout)
    ensures forall k :: 0 <= k <= |tx.vin| ==> InputValue(m, tx, k) == ValueIn(m, tx.vin[..k])
    ensures Fee(m, tx) == ValueIn(m, tx.vin) - ValueSum(tx.vout)
    ensures HiddenSigOps(rules, m, tx, |tx.vin|) == P2SHSigOps(rules, m, tx.vin)
  {
    hide ValueIn, InputValue, P2SHSigOps, HiddenSigOps, ValueSum, OutputValue, Unspent;
    OutputValueIs(tx, |tx.vout|);
    assert tx.vin[..|tx.vin|] == tx.vin && tx.vout[..|tx.vout|] == tx.vout;
    forall k | 0 <= k <= |tx.vin|
      ensures InputValue(m, tx, k) == ValueIn(m, tx.vin[..k])
      ensures HiddenSigOps(rules, m, tx, k) == P2SHSigOps(rules, m, tx.vin[..k])
    {
      InputSumsAre(rules, m, tx, k);
    }
  }

  lemma UnspentIs(m: CoinMap, o: OutPoint)
    ensures Available(m, o) <==> Unspent(m, o)
    ensures Unspent(m, o) ==> PrevOut(m, o) == OutputAt(m, o) && At(m, o.hash) == m[o.hash]
  {
  }

  /** The money part of CheckInputs is that a transaction is affordable. */
  lemma AffordableIs(rules: Rules, m: CoinMap, tx: Tx, height: nat)
    ensures HaveInputs(m, tx.vin) && ValuesPass(height, m, tx) <==> Affordable(m, tx, height)
    ensures HaveInputs(m, tx.vin) <==> forall j :: 0 <= j < |tx.vin| ==> Unspent(m, tx.vin[j].prevout)
    ensures HaveInputs(m, tx.vin) ==>
              && Fee(m, tx) == ValueIn(m, tx.vin) - ValueSum(tx.vout)
              && HiddenSigOps(rules, m, tx, |tx.vin|) == P2SHSigOps(rules, m, tx.vin)
  {
    forall j | 0 <= j < |tx.vin|
      ensures Available(m, tx.vin[j].prevout) <==> Unspent(m, tx.vin[j].prevout)
      ensures Unspent(m, tx.vin[j].prevout) ==>
                && PrevOut(m, tx.vin[j].prevout) == OutputAt(m, tx.vin[j].prevout)
                && At(m, tx.vin[j].prevout.hash) == m[tx.vin[j].prevout.hash]
    {
      UnspentIs(m, tx.vin[j].prevout);
    }
    if HaveInputs(m, tx.vin) {
      SumsAre(rules, m, tx);
      assert tx.vin[..|tx.vin|] == tx.vin;
      forall j | 0 <= j < |tx.vin| ensures InputPasses(height, m, tx.vin, j) <==> InputMeets(m, tx, height, j) {
        hide ValueIn, InputValue, Unspent, Available, PrevOut, At;
      }
      if |tx.vin| > 0 && ValuesPass(height, m, tx) {
        assert InputPasses(height, m, tx.vin, |tx.vin| - 1);
      }
      hide ValueIn, InputValue, ValueSum, OutputValue, P2SHSigOps, HiddenSigOps, OutputAt, InputMeets, InputPasses,
           Available, Unspent;
    }
  }

  // ---------- the run

  lemma ChecksAre(ctx: Ctx, m: CoinMap, tx: Tx, sigOps: nat)
    requires !tx.IsCoinBase()
    ensures TxChecks(ctx, m, tx, sigOps).Some? <==>
            && Affordable(m, tx, ctx.height)
            && (ctx.scripts ==> ScriptsAgree(ctx.rules, m, tx, ctx.strict))
            && sigOps + tx.sigOps + (if ctx.strict then HiddenSigOps(ctx.rules, m, tx, |tx.vin|) else 0)
               <= ctx.maxSigOps
    ensures TxChecks(ctx, m, tx, sigOps).Some? ==>
              TxChecks(ctx, m, tx, sigOps).value
              == (Fee(m, tx), sigOps + tx.sigOps + if ctx.strict then HiddenSigOps(ctx.rules, m, tx, |tx.vin|) else 0)
  {
    AffordableIs(ctx.rules, m, tx, ctx.height);
    if HaveInputs(m, tx.vin) {
      forall j | 0 <= j < |tx.vin| ensures PrevOut(m, tx.vin[j].prevout) == OutputAt(m, tx.vin[j].prevout) {
        UnspentIs(m, tx.vin[j].prevout);
      }
    }
    hide ValuesPass, Affordable, HaveInputs, Unspent, OutputAt, PrevOut, HiddenSigOps, P2SHSigOps, Fee, ValueIn,
         ValueSum;
  }

  /** What the first n transactions must meet, and what they leave. */
  predicate Meets(ctx: Ctx, m: CoinMap, txs: seq<Tx>, n: nat)
    requires n <= |txs|
  {
    && AllMeet(ctx.rules, m, txs, ctx.height, ctx.strict, ctx.scripts, n)
    && (n > 0 ==> SigOps(ctx.rules, m, txs, ctx.height, ctx.strict, n) <= ctx.maxSigOps)
  }

  predicate Leaves(ctx: Ctx, m: CoinMap, txs: seq<Tx>, n: nat, acc: Acc)
    requires n <= |txs| && Meets(ctx, m, txs, n)
  {
    && acc.m == CoinsBefore(m, txs, ctx.height, n)
    && acc.fees == Fees(m, txs, ctx.height, n)
    && acc.sigOps == SigOps(ctx.rules, m, txs, ctx.height, ctx.strict, n)
  }

  lemma MoreMeet(ctx: Ctx, m: CoinMap, txs: seq<Tx>, n: nat)
    requires 1 <= n < |txs| && Meets(ctx, m, txs, n)
    ensures Meets(ctx, m, txs, n + 1) <==>
            && Pays(m, txs, ctx.height, n)
            && (ctx.scripts ==> ScriptsAgree(ctx.rules, CoinsBefore(m, txs, ctx.height, n), txs[n], ctx.strict))
            && SigOps(ctx.rules, m, txs, ctx.height, ctx.strict, n) + txs[n].sigOps
               + (if ctx.strict
                  then HiddenSigOps(ctx.rules, CoinsBefore(m, txs, ctx.height, n), txs[n], |txs[n].vin|) else 0)
               <= ctx.maxSigOps
    ensures Meets(ctx, m, txs, n + 1) ==>
              && Fees(m, txs, ctx.height, n + 1)
                 == Fees(m, txs, ctx.height, n) + Fee(CoinsBefore(m, txs, ctx.height, n), txs[n])
              && SigOps(ctx.rules, m, txs, ctx.height, ctx.strict, n + 1)
                 == SigOps(ctx.rules, m, txs, ctx.height, ctx.strict, n) + txs[n].sigOps
                    + if ctx.strict
                      then HiddenSigOps(ctx.rules, CoinsBefore(m, txs, ctx.height, n), txs[n], |txs[n].vin|) else 0
  {
    if AllMeet(ctx.rules, m, txs, ctx.height, ctx.strict, ctx.scripts, n + 1) {
      assert Pays(m, txs, ctx.height, n);
      assert ctx.scripts ==> ScriptsMeet(ctx.rules, m, txs, ctx.height, ctx.strict, n);
    }
    hide Affordable, Pays, ScriptsAgree, HiddenSigOps, CoinsBefore, Fee;
  }

  lemma OneMore(ctx: Ctx, m: CoinMap, txs: seq<Tx>, n: nat, acc: Acc)
    requires n < |txs| && Meets(ctx, m, txs, n) && Leaves(ctx, m, txs, n, acc)
    requires txs[n].IsCoinBase() <==> n == 0
    ensures TxStep(ctx, acc, txs[n]).Some? <==> Meets(ctx, m, txs, n + 1)
    ensures TxStep(ctx, acc, txs[n]).Some? ==> Leaves(ctx, m, txs, n + 1, TxStep(ctx, acc, txs[n]).value)
  {
    if n > 0 {
      ChecksAre(ctx, acc.m, txs[n], acc.sigOps);
      MoreMeet(ctx, m, txs, n);
      hide TxChecks, AllMeet, Fees, SigOps, Meets;
    }
    hide Affordable, ScriptsAgree, HiddenSigOps, UpdateCoins, Fee, Tx.IsCoinBase;
  }

  lemma {:induction false} RunIs(ctx: Ctx, m: CoinMap, txs: seq<Tx>, n: nat)
    requires n <= |txs| && forall i :: 0 <= i < |txs| ==> (txs[i].IsCoinBase() <==> i == 0)
    ensures Run(ctx, m, txs[..n]).Some? <==> Meets(ctx, m, txs, n)
    ensures Run(ctx, m, txs[..n]).Some? ==> Leaves(ctx, m, txs, n, Run(ctx, m, txs[..n]).value)
  {
    if n > 0 {
      RunIs(ctx, m, txs, n - 1);
      assert txs[..n][..n - 1] == txs[..n - 1];
      var front := Run(ctx, m, txs[..n - 1]);
      if front.Some? {
        OneMore(ctx, m, txs, n - 1, front.value);
      } else if Meets(ctx, m, txs, n) {
        FewerMeet(ctx, m, txs, n);
      }
      hide TxStep, Meets, Leaves;
    }
  }

  lemma FewerMeet(ctx: Ctx, m: CoinMap, txs: seq<Tx>, n: nat)
    requires 0 < n <= |txs| && Meets(ctx, m, txs, n)
    ensures Meets(ctx, m, txs, n - 1)
  {
    hide Affordable, ScriptsAgree, HiddenSigOps, UpdateCoins, Pays, CoinsBefore;
  }

  /** A block connects exactly when it meets the rules, and leaves the coins of all its transactions applied in
      order. */
  lemma ConnectIs(rules: Rules, m: CoinMap, b: Block, height: nat)
    requires 1 <= height
    ensures Connect(rules, m, b, height).Some? <==> MeetsRules(rules, m, b, height)
    ensures Connect(rules, m, b, height).Some? ==>
              Connect(rules, m, b, height).value.0 == CoinsBefore(m, b.vtx, height, |b.vtx|)
  {
    if WellFormedBlock(b) {
      RunIs(CtxFor(rules, b, height), m, b.vtx, |b.vtx|);
      OutputValueIs(b.vtx[0], |b.vtx[0].vout|);
      assert b.vtx[..|b.vtx|] == b.vtx && b.vtx[0].vout[..|b.vtx[0].vout|] == b.vtx[0].vout;
      NothingOverwritten(m, b.vtx);
    }
    hide Run, WellFormedBlock, NoOverwrite, Unspent, AllMeet, SigOps, Fees, CoinsBefore, OutputValue, ValueSum;
  }

  lemma NothingOverwritten(m: CoinMap, vtx: seq<Tx>)
    ensures NoOverwrite(m, vtx) <==> forall i, k: nat :: 0 <= i < |vtx| ==> !Unspent(m, OutPoint(vtx[i].hash, k))
  {
    forall i | 0 <= i < |vtx|
      ensures At(m, vtx[i].hash) == EMPTY_COINS <==> forall k: nat :: !Unspent(m, OutPoint(vtx[i].hash, k))
    {
      var id := vtx[i].hash;
      if id in m && !m[id].IsPruned() {
        var k :| 0 <= k < |m[id].vout| && !m[id].vout[k].IsNull();
        assert Unspent(m, OutPoint(id, k));
        assert m[id] != EMPTY_COINS;
      }
    }
  }

  /** From the height on at which scripts are checked, no block with a failing script connects. */
  lemma ScriptsPassInChain(rules: Rules, m: CoinMap, b: Block, height: nat, i: nat, k: nat)
    requires rules.scriptChecksFrom <= height && 1 <= height && Connect(rules, m, b, height).Some?
    requires 1 <= i < |b.vtx| && k < |b.vtx[i].vin|
    ensures var before := CoinsBefore(m, b.vtx, height, i);
            && Unspent(before, b.vtx[i].vin[k].prevout)
            && rules.scriptOk(OutputAt(before, b.vtx[i].vin[k].prevout), b.vtx[i], k, b.nTime >= 1_349_049_600)
  {
    ConnectIs(rules, m, b, height);
    assert Pays(m, b.vtx, height, i);
    assert ScriptsMeet(rules, m, b.vtx, height, b.nTime >= 1_349_049_600, i);
    hide Connect, WellFormedBlock, SigOps, Fees, CoinsBefore;
  }
}
