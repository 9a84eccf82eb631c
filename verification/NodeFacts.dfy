/** What the chain state promises a user of the node: coins that depend on the tip alone, a bounded supply, and the
    one failure that does move the coins. */
module NodeFacts {
  import opened Basics
  import opened Transactions
  import opened CoinsRules
  import opened Ledger
  import opened BlockRules
  import opened BlockTree
  import opened CoinsViews
  import opened Connecting
  import opened ChainStates
  import opened Subsidy
  import opened Supply
  import opened SigOps

  lemma SameTransitive(m1: CoinMap, m2: CoinMap, m3: CoinMap)
    requires Same(m1, m2) && Same(m3, m2)
    ensures Same(m1, m3)
  {
    forall id ensures At(m1, id) == At(m3, id) {
      assert At(m1, id) == At(m2, id) && At(m3, id) == At(m2, id);
    }
  }

  /** Two nodes at the same tip show the same coins, whatever they connected, disconnected and refused before. */
  lemma PathIndependence(a: ChainState, b: ChainState)
    requires a.Inv() && b.Inv() && a.rules == b.rules && a.genesis == b.genesis
    requires a.tip.Best() == b.tip.Best()
    ensures Same(a.tip.Contents(), b.tip.Contents())
  {
    var t := a.tip.Best();
    SameTransitive(a.tip.Contents(), if t == null then map[] else Replay(a.rules, a.genesis, t), b.tip.Contents());
  }

  /** In every reachable state the unspent value is at most the subsidies below the tip, and these stay below
      MAX_MONEY. */
  lemma SupplyOfNode(s: ChainState)
    requires s.Inv() && s.tip.Best() != null
    ensures 0 <= Total(s.tip.Contents()) <= TotalSubsidy(s.tip.Best().nHeight) <= MAX_MONEY
  {
    BranchSupply(s.rules, s.genesis, s.tip.Best());
    TotalSame(s.tip.Contents(), Replay(s.rules, s.genesis, s.tip.Best()));
  }

  // ---------- any run of calls

  /** Where the coins stand after a run: at the block of the last call that moved them. */
  ghost function Landed(start: BlockIndex?, calls: seq<(BlockIndex, ChainIo)>, outcomes: seq<Outcome>): BlockIndex?
    requires |outcomes| == |calls|
    decreases |calls|
  {
    if calls == [] then start
    else
      var last := |calls| - 1;
      if outcomes[last].Switched? || outcomes[last].Halted? then calls[last].0
      else Landed(start, calls[..last], outcomes[..last])
  }

  /** Any sequence of SetBestChain calls, failed ones and those after a Halted one included: the coins stay those of
      the branch they were last moved to, and best pointer and links follow unless some call ended Halted. */
  method Calls(s: ChainState, calls: seq<(BlockIndex, ChainIo)>) returns (outcomes: seq<Outcome>)
    requires s.Inv() && forall i :: 0 <= i < |calls| ==> calls[i].0 in s.index
    modifies s, s.index, s.tip.views, s.tip.db
    ensures s.Inv() && s.index == old(s.index) && |outcomes| == |calls|
    ensures s.tip.Best() == Landed(old(s.tip.Best()), calls, outcomes)
    ensures s.tip.Best() != null ==>
              s.tip.Best() in s.index && BranchValid(s.rules, s.genesis, s.tip.Best())
              && Same(s.tip.Contents(), Replay(s.rules, s.genesis, s.tip.Best()))
    ensures old(s.InStep()) && Halted !in outcomes ==> s.InStep()
  {
    hide ChainState.UndoOk, ChainState.FlagsOk, ChainState.PointersOk, ChainState.BlocksOk, ChainState.Relinked,
         ChainState.LinksAway, ChainState.Linked, ViewCache.Contents, ViewCache.Best, BranchValid, Replay;
    outcomes := [];
    for i := 0 to |calls|
      invariant s.Inv() && s.index == old(s.index) && |outcomes| == i
      invariant s.tip.Best() == Landed(old(s.tip.Best()), calls[..i], outcomes)
      invariant old(s.InStep()) && Halted !in outcomes ==> s.InStep()
    {
      var r := s.SetBestChain(calls[i].0, calls[i].1);
      assert calls[..i + 1][..i] == calls[..i];
      assert (outcomes + [r])[..i] == outcomes;
      outcomes := outcomes + [r];
    }
    assert calls[..|calls|] == calls;
  }

  // ---------- a failed call that does change the view

  const GENESIS_TX := Tx(7, 1, [TxIn(OutPoint(0, NULL_INDEX), [1, 1], 0)], [TxOut(0, [])], 0, 62, 0)
  const GENESIS_BLOCK := Block([GENESIS_TX], 0, true)
  const REWARD_TX := Tx(8, 1, [TxIn(OutPoint(0, NULL_INDEX), [1, 1], 0)], [TxOut(1, [])], 0, 62, 0)
  const REWARD_BLOCK := Block([REWARD_TX], 0, true)

  /** All reads and writes succeed; the shared cache is pushed to the database when there is space for it. */
  function DiskIo(spaceOk: bool): ChainIo {
    ChainIo(b => BlockIo(true, true, true, true, true), true, spaceOk, true)
  }

  lemma CoinbaseBlockWellFormed(b: Block, tx: Tx)
    requires b == Block([tx], 0, true) && (tx == GENESIS_TX || tx == REWARD_TX)
    ensures WellFormedBlock(b)
    ensures tx.size == SerializedSize(tx) && tx.sigOps == InputSigOps(tx.vin) + OutputSigOps(tx.vout)
  {
    OneToOne(tx, tx.vin[0], tx.vout[0]);
    assert ScriptSigOps([1, 1], false) == 0 && ScriptSigOps([], false) == 0;
    assert OutputsInRange([]);
    assert tx.vout[..0] == [];
    assert ValueSum([]) == 0;
    assert OutputsInRange(tx.vout);
    assert WellFormed(tx);
  }

  /** The coins of the chain of the two blocks. */
  lemma RewardConnects(rules: Rules, genesis: BlockIndex, b: BlockIndex)
    requires genesis.block == GENESIS_BLOCK && genesis.pprev == null && genesis.nHeight == 0
    requires b.block == REWARD_BLOCK && b.pprev == genesis && b.nHeight == 1 && Rooted(b, genesis)
    ensures BranchValid(rules, genesis, b)
    ensures Replay(rules, genesis, genesis) == map[]
    ensures Replay(rules, genesis, b) == map[8 := FromTx(REWARD_TX, 1)]
  {
    CoinbaseBlockWellFormed(GENESIS_BLOCK, GENESIS_TX);
    CoinbaseBlockWellFormed(REWARD_BLOCK, REWARD_TX);
    var ctx := CtxFor(rules, REWARD_BLOCK, 1);
    assert Run(ctx, map[], []) == Some(Acc(map[], [], 0, 0));
    assert REWARD_BLOCK.vtx[..0] == [];
    assert Run(ctx, map[], REWARD_BLOCK.vtx) == TxStep(ctx, Acc(map[], [], 0, 0), REWARD_TX);
    assert REWARD_TX.vout[..0] == [];
    assert ValueSum(REWARD_TX.vout) == 1 <= GetBlockValue(0, 0);
  }

  lemma GenesisValid(rules: Rules, genesis: BlockIndex)
    requires genesis.block == GENESIS_BLOCK && genesis.pprev == null && genesis.nHeight == 0
    ensures BranchValid(rules, genesis, genesis)
  {
    CoinbaseBlockWellFormed(GENESIS_BLOCK, GENESIS_TX);
  }

  /** A node whose best block is genesis. */
  method GenesisNode(rules: Rules) returns (s: ChainState)
    ensures fresh(s) && fresh(s.index) && fresh(s.tip.views) && fresh(s.tip.db)
    ensures s.Inv() && s.InStep() && s.rules == rules && s.index == {s.genesis} && s.genesis.hash == 1
    ensures s.best == s.genesis && s.genesis.block == GENESIS_BLOCK
  {
    hide ViewCache.Contents, ViewCache.Best, Replay, Same, BranchValid, ChainState.UndoOk, ChainState.FlagsOk,
         ChainState.CoinsOk, ChainState.PointersOk, ChainState.Linked, ChainState.Relinked, ChainState.LinksAway;
    var db := new CoinsDb();
    var tip := new ViewCache.OverDb(db);
    EmptyView(tip);
    var genesis := new BlockIndex(1, null, 1, GENESIS_BLOCK);
    s := new ChainState(rules, genesis, tip, false);
    s.Insert(genesis);
    GenesisValid(rules, genesis);
    var r := s.SetBestChain(genesis, DiskIo(true));
  }

  /** With the reward block indexed beside it. */
  method TwoBlocks(rules: Rules) returns (s: ChainState, b: BlockIndex)
    ensures fresh(s) && fresh(s.index) && fresh(s.tip.views) && fresh(s.tip.db)
    ensures s.Inv() && s.InStep() && s.rules == rules && b in s.index
    ensures s.best == s.genesis && s.genesis.block == GENESIS_BLOCK
    ensures b.block == REWARD_BLOCK && b.pprev == s.genesis && b.nHeight == 1
  {
    hide ViewCache.Contents, ViewCache.Best, Replay, Same, BranchValid, ChainState.UndoOk, ChainState.FlagsOk,
         ChainState.CoinsOk, ChainState.PointersOk, ChainState.Linked;
    s := GenesisNode(rules);
    b := new BlockIndex(2, s.genesis, 1, REWARD_BLOCK);
    s.Insert(b);
  }

  /** The disk fills up at the wrong moment. SetBestChain reports failure, yet the coins have moved to the new block and
      the best pointer has not; so a failed call does change the view. */
  method DiskFullWitness(rules: Rules) returns (s: ChainState, b: BlockIndex, ghost before: CoinMap, r: Outcome)
    ensures fresh(s) && fresh(s.index) && fresh(s.tip.views) && fresh(s.tip.db)
    ensures r == Halted && s.Inv() && b in s.index
    ensures s.best == s.genesis == b.pprev && s.tip.Best() == b && s.genesis.pnext == null
    ensures !Same(s.tip.Contents(), before) && !s.InStep()
  {
    hide ViewCache.Contents, ViewCache.Best, Replay, BranchValid, Same;
    s, b := TwoBlocks(rules);
    RewardConnects(rules, s.genesis, b);
    before := s.tip.Contents();
    assert Same(before, map[]);
    assert s.genesis.pnext == NextOf(s.genesis, s.genesis, s.genesis);
    r := s.SetBestChain(b, DiskIo(false));
    RewardShows(before, s.tip.Contents());
  }

  lemma RewardShows(before: CoinMap, after: CoinMap)
    requires Same(before, map[]) && Same(after, map[8 := FromTx(REWARD_TX, 1)])
    ensures !Same(after, before)
  {
    assert At(before, 8) == At(map[], 8);
    assert !FromTx(REWARD_TX, 1).vout[0].IsNull();
    assert At(after, 8) == At(map[8 := FromTx(REWARD_TX, 1)], 8) == FromTx(REWARD_TX, 1);
  }

  /** The same call again, now with space on the disk, succeeds: best pointer and coins agree once more. The link from
      genesis to the new best block is never written, since the scratch view already stands there, and IsInMainChain
      denies the parent of the best block. */
  method RetryWitness(rules: Rules) returns (s: ChainState, b: BlockIndex, r: Outcome, genesisIsActive: bool)
    ensures r == Switched && s.Inv() && b in s.index
    ensures s.best == s.tip.Best() == b && b.pprev == s.genesis
    ensures s.genesis.pnext == null && !s.InStep() && !genesisIsActive
  {
    hide ViewCache.Contents, ViewCache.Best, Replay, BranchValid, Same;
    ghost var before;
    s, b, before, r := DiskFullWitness(rules);
    r := s.SetBestChain(b, DiskIo(true));
    assert s.Relinked(b, b, s.genesis, null) == null;
    assert NextOf(s.genesis, b, s.genesis) == b;
    genesisIsActive := s.IsInMainChain(s.genesis);
  }

  lemma EmptyView(v: ViewCache)
    requires v.Valid() && v.base == null && v.db.store == map[] && v.cacheCoins == map[]
    requires v.pindexTip == null && v.db.best == null
    ensures Same(v.Contents(), map[]) && v.Best() == null
  {
    assert v.Contents() == map[];
  }
}
