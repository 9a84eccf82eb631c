/** What the order and the limits of a block template amount to, in the numbers a miner would check. */
module TemplateMeaning {
  import opened Basics
  import opened Transactions
  import opened CoinsRules
  import opened Ledger
  import opened BlockRules
  import opened BlockTemplates
  import M = BlockMeaning

  // ---------- limits

  /** The largest block stays 1000 bytes below the limit of its height and never goes below 1000 bytes; the other two
      sizes stay within it. */
  lemma LimitsAre(height: nat, maxArg: nat, priorityArg: nat, minArg: nat)
    ensures var limits := LimitsFor(height, maxArg, priorityArg, minArg);
            var cap := if height < 490_000 then 199_000 else 999_000;
            && 1000 <= limits.nBlockMaxSize <= cap
            && (1000 <= maxArg <= cap ==> limits.nBlockMaxSize == maxArg)
            && (maxArg < 1000 ==> limits.nBlockMaxSize == 1000) && (maxArg > cap ==> limits.nBlockMaxSize == cap)
            && limits.nBlockPrioritySize <= limits.nBlockMaxSize && limits.nBlockMinSize <= limits.nBlockMaxSize
            && (priorityArg <= limits.nBlockMaxSize ==> limits.nBlockPrioritySize == priorityArg)
            && (priorityArg > limits.nBlockMaxSize ==> limits.nBlockPrioritySize == limits.nBlockMaxSize)
            && (minArg <= limits.nBlockMaxSize ==> limits.nBlockMinSize == minArg)
            && (minArg > limits.nBlockMaxSize ==> limits.nBlockMinSize == limits.nBlockMaxSize)
  {
  }

  function OpsLimit(height: nat): nat {
    if height < 490_000 then 4000 else 20_000
  }

  /** A dequeued transaction is taken exactly when it fits, pays or is within the free part, and would connect. */
  lemma TakenIs(rules: Rules, height: nat, m: CoinMap, limits: Limits, s: Selection, e: Entry)
    requires !e.tx.IsCoinBase()
    ensures var ctx, tx := TemplateCtx(rules, height), e.tx;
            var coins, size := CoinsAfter(ctx, m, s.p.vtx), s.p.nBlockSize + tx.size;
            Judge(ctx, m, limits, s, e).IsTaken? <==>
              && size < limits.nBlockMaxSize
              && (s.fSortedByFee && e.dFeePerKb < 100_000.0 ==> size < limits.nBlockMinSize)
              && M.Affordable(coins, tx, height)
              && M.ScriptsAgree(rules, coins, tx, true)
              && s.p.nBlockSigOps + tx.sigOps + M.HiddenSigOps(rules, coins, tx, |tx.vin|) < OpsLimit(height)
  {
    var ctx, tx := TemplateCtx(rules, height), e.tx;
    var coins := CoinsAfter(ctx, m, s.p.vtx);
    M.ChecksAre(ctx, coins, tx, s.p.nBlockSigOps);
    M.AffordableIs(rules, coins, tx, height);
    hide TxChecks, M.Affordable, M.ScriptsAgree, M.HiddenSigOps, P2SHSigOps, CoinsAfter, HaveInputs, ValuesPass;
  }

  /** The queue is sorted by fee from the start when no part of the block is kept for priority, and otherwise from the
      first entry on that came to its checks and was beyond that part or of low priority. */
  lemma {:induction false} SortedSince(ctx: Ctx, m: CoinMap, limits: Limits, order: seq<Entry>, n: nat)
    requires n <= |order|
    ensures Before(ctx, m, limits, order, n).fSortedByFee <==>
            || limits.nBlockPrioritySize == 0
            || exists i :: 0 <= i < n && Switches(ctx, m, limits, order, i)
  {
    if n > 0 {
      SortedSince(ctx, m, limits, order, n - 1);
      assert order[..n][..n - 1] == order[..n - 1] && order[..n][n - 1] == order[n - 1];
      assert Before(ctx, m, limits, order, n)
             == Offered(ctx, m, limits, Before(ctx, m, limits, order, n - 1), order[n - 1]);
      hide Judge;
      assert Before(ctx, m, limits, order, n).fSortedByFee
             <==> Before(ctx, m, limits, order, n - 1).fSortedByFee || Switches(ctx, m, limits, order, n - 1);
      hide Before, Offered, Switches;
    }
  }

  predicate Switches(ctx: Ctx, m: CoinMap, limits: Limits, order: seq<Entry>, i: nat)
    requires i < |order|
  {
    var s, e := Before(ctx, m, limits, order, i), order[i];
    && (Judge(ctx, m, limits, s, e).ChecksFail? || Judge(ctx, m, limits, s, e).IsTaken?)
    && (s.p.nBlockSize + e.tx.size >= limits.nBlockPrioritySize || e.dPriority < 230_400_000.0)
  }

  // ---------- what is compared

  lemma {:induction false} TotalIsInputValue(m: CoinMap, pool: Pool, tx: Tx, n: nat)
    requires n <= |tx.vin| && forall i :: 0 <= i < |tx.vin| ==> M.Unspent(m, tx.vin[i].prevout)
    ensures FoundUpTo(m, pool, tx, n) && TotalIn(m, pool, tx, n) == M.InputValue(m, tx, n)
  {
    if n > 0 {
      TotalIsInputValue(m, pool, tx, n - 1);
      assert M.Unspent(m, tx.vin[n - 1].prevout);
    }
  }

  /** The fee rate of a candidate that spends no pooled output is its fee for each thousand bytes. */
  lemma FeeRateIs(m: CoinMap, pool: Pool, height: nat, isFinal: Tx -> bool, e: Entry)
    requires e in Candidates(m, pool, height, isFinal)
    requires forall i :: 0 <= i < |e.tx.vin| ==> M.Unspent(m, e.tx.vin[i].prevout)
    ensures e.dFeePerKb * e.tx.size as real == 1000.0 * M.Fee(m, e.tx) as real
  {
    TotalIsInputValue(m, pool, e.tx, |e.tx.vin|);
    M.OutputValueIs(e.tx, |e.tx.vout|);
    assert e.tx.vout[..|e.tx.vout|] == e.tx.vout;
    hide TotalIn, M.InputValue, ValueSum, M.OutputValue, M.Unspent, FoundUpTo, AgedIn;
    Rate(M.Fee(m, e.tx) as real, e.tx.size as real);
  }

  /** The value of the first k inputs, each times the blocks since it was made. */
  function AgedValue(m: CoinMap, tx: Tx, height: int, k: nat): int
    requires k <= |tx.vin| && forall j :: 0 <= j < |tx.vin| ==> M.Unspent(m, tx.vin[j].prevout)
  {
    if k == 0 then 0
    else
      var o := tx.vin[k - 1].prevout;
      assert M.Unspent(m, o);
      AgedValue(m, tx, height, k - 1) + M.OutputAt(m, o).nValue * (height - m[o.hash].nHeight)
  }

  lemma {:induction false} AgedIs(m: CoinMap, pool: Pool, tx: Tx, height: nat, k: nat)
    requires k <= |tx.vin| && forall j :: 0 <= j < |tx.vin| ==> M.Unspent(m, tx.vin[j].prevout)
    ensures FoundUpTo(m, pool, tx, k) && AgedIn(m, pool, tx, height, k) == AgedValue(m, tx, height, k) as real
  {
    if k > 0 {
      AgedIs(m, pool, tx, height, k - 1);
      var o := tx.vin[k - 1].prevout;
      assert M.Unspent(m, o);
      assert M.OutputAt(m, o).nValue as real * (height - m[o.hash].nHeight) as real
             == (M.OutputAt(m, o).nValue * (height - m[o.hash].nHeight)) as real;
    }
  }

  /** The priority of such a candidate is that sum for each byte. */
  lemma PriorityIs(m: CoinMap, pool: Pool, height: nat, isFinal: Tx -> bool, e: Entry)
    requires e in Candidates(m, pool, height, isFinal)
    requires forall i :: 0 <= i < |e.tx.vin| ==> M.Unspent(m, e.tx.vin[i].prevout)
    ensures e.dPriority * e.tx.size as real == AgedValue(m, e.tx, height, |e.tx.vin|) as real
  {
    AgedIs(m, pool, e.tx, height, |e.tx.vin|);
    hide AgedIn, AgedValue, FoundUpTo, M.Unspent;
  }

  lemma Rate(fee: real, size: real)
    requires size > 0.0
    ensures fee / (size / 1000.0) * size == 1000.0 * fee
  {
    var kb := size / 1000.0;
    assert fee / kb * kb == fee;
    assert fee / kb * (kb * 1000.0) == fee / kb * kb * 1000.0;
  }

  // ---------- order

  /** Once the queue is sorted by fee, an entry with a higher fee rate is not left waiting for one with a lower. */
  lemma HigherFeeFirst(ctx: Ctx, m: CoinMap, cands: iset<Entry>, limits: Limits, order: seq<Entry>, x: Entry, j: nat)
    requires BestFirst(ctx, m, cands, limits, order) && j < |order|
    requires Before(ctx, m, limits, order, j).fSortedByFee && x.dFeePerKb > order[j].dFeePerKb
    requires x in cands && AllDeps(m, x.tx) <= Hashes(Before(ctx, m, limits, order, j).p.vtx)
    ensures exists i :: 0 <= i < j && order[i] == x
  {
    hide Before, Hashes, AllDeps;
    assert x in order[..j];
  }

  /** Before that, one with a higher priority is not. */
  lemma HigherPriorityFirst(ctx: Ctx, m: CoinMap, cands: iset<Entry>, limits: Limits, order: seq<Entry>, x: Entry,
                            j: nat)
    requires BestFirst(ctx, m, cands, limits, order) && j < |order|
    requires !Before(ctx, m, limits, order, j).fSortedByFee && x.dPriority > order[j].dPriority
    requires x in cands && AllDeps(m, x.tx) <= Hashes(Before(ctx, m, limits, order, j).p.vtx)
    ensures exists i :: 0 <= i < j && order[i] == x
  {
    hide Before, Hashes, AllDeps;
    assert x in order[..j];
  }

  /** A candidate was offered at a moment when the block had no room for it or a check failed. */
  ghost predicate Refused(ctx: Ctx, m: CoinMap, limits: Limits, order: seq<Entry>, x: Entry) {
    exists i :: 0 <= i < |order| && order[i] == x
                && !Judge(ctx, m, limits, Before(ctx, m, limits, order, i), x).IsTaken?
  }

  /** With no part of the block kept for priority, of two candidates that spend no pooled outputs the one with the
      higher fee rate is offered first; so when only the other is in the block, it was refused. */
  lemma RicherFirst(ctx: Ctx, m: CoinMap, cands: iset<Entry>, limits: Limits, order: seq<Entry>, x: Entry, y: Entry)
    requires BestFirst(ctx, m, cands, limits, order) && limits.nBlockPrioritySize == 0
    requires x in cands && y in cands && AllDeps(m, x.tx) == {} == AllDeps(m, y.tx)
    requires x.dFeePerKb > y.dFeePerKb
    ensures exists i, j :: 0 <= i < j < |order| && order[i] == x && order[j] == y
    ensures x.tx !in OfferAll(ctx, m, limits, order).p.vtx ==> Refused(ctx, m, limits, order, x)
  {
    hide Hashes, Judge, OfferAll, Refused, BestFirst, AllDeps;
    var j := AtSomeTime(ctx, m, cands, limits, order, y);
    SortedSince(ctx, m, limits, order, j);
    HigherFeeFirst(ctx, m, cands, limits, order, x, j);
    OfferedIsTakenOrRefused(ctx, m, limits, order, x);
  }

  lemma AtSomeTime(ctx: Ctx, m: CoinMap, cands: iset<Entry>, limits: Limits, order: seq<Entry>, e: Entry)
    returns (j: nat)
    requires BestFirst(ctx, m, cands, limits, order) && e in cands && AllDeps(m, e.tx) == {}
    ensures j < |order| && order[j] == e
  {
    hide OfferAll, Hashes, AllDeps;
    assert e in order;
    j :| 0 <= j < |order| && order[j] == e;
  }

  /** While the queue is not sorted by fee the same holds of the higher priority: whatever such an entry y is offered
      then, x was offered before it. */
  lemma UrgentFirst(ctx: Ctx, m: CoinMap, cands: iset<Entry>, limits: Limits, order: seq<Entry>, x: Entry, y: Entry,
                    j: nat)
    requires BestFirst(ctx, m, cands, limits, order) && j < |order| && order[j] == y
    requires !Before(ctx, m, limits, order, j).fSortedByFee
    requires x in cands && AllDeps(m, x.tx) == {} && x.dPriority > y.dPriority
    ensures exists i :: 0 <= i < j && order[i] == x
    ensures x.tx !in OfferAll(ctx, m, limits, order).p.vtx ==> Refused(ctx, m, limits, order, x)
  {
    hide Hashes, Judge, OfferAll, Refused, BestFirst, AllDeps;
    HigherPriorityFirst(ctx, m, cands, limits, order, x, j);
    OfferedIsTakenOrRefused(ctx, m, limits, order, x);
  }

  lemma OfferedIsTakenOrRefused(ctx: Ctx, m: CoinMap, limits: Limits, order: seq<Entry>, x: Entry)
    requires x in order
    ensures x.tx !in OfferAll(ctx, m, limits, order).p.vtx ==> Refused(ctx, m, limits, order, x)
  {
    hide Judge, OfferAll;
    TakenWhenOffered(ctx, m, limits, order, x.tx);
    var i :| 0 <= i < |order| && order[i] == x;
    assert Before(ctx, m, limits, order, i) == OfferAll(ctx, m, limits, order[..i]);
  }
}
