/** The block index: a tree of blocks rooted at genesis, and what replaying a branch from genesis gives. */
module BlockTree {
  import opened Basics
  import opened Transactions
  import opened CoinsRules
  import opened Ledger
  import opened BlockRules

  /** `block` is what ReadFromDisk returns for this entry and `undo` the record stored at GetUndoPos. */
  class BlockIndex {
    const hash: Hash
    const pprev: BlockIndex?
    const nHeight: nat
    const nChainWork: nat
    const block: Block
    var pnext: BlockIndex?
    var undo: Option<BlockUndo>
    var fScriptsValid: bool
    var fFailedValid: bool
    var fFailedChild: bool

    constructor (hash: Hash, pprev: BlockIndex?, nBlockWork: nat, block: Block)
      ensures this.hash == hash && this.pprev == pprev && this.block == block
      ensures nHeight == (if pprev == null then 0 else pprev.nHeight + 1)
      ensures nChainWork == (if pprev == null then 0 else pprev.nChainWork) + nBlockWork
      ensures pnext == null && undo == None && !fScriptsValid && !fFailedValid && !fFailedChild
    {
      this.hash, this.pprev, this.block := hash, pprev, block;
      nHeight := if pprev == null then 0 else pprev.nHeight + 1;
      nChainWork := (if pprev == null then 0 else pprev.nChainWork) + nBlockWork;
      pnext, undo, fScriptsValid, fFailedValid, fFailedChild := null, None, false, false, false;
    }

    predicate Failed()
      reads `fFailedValid, `fFailedChild
    {
      fFailedValid || fFailedChild
    }
  }

  /** b descends from genesis. Proof of work rejects targets below one, so every block adds work. */
  ghost predicate Rooted(b: BlockIndex, genesis: BlockIndex)
    decreases b.nHeight
  {
    if b.pprev == null then b == genesis && b.nHeight == 0
    else
      && b != genesis
      && b.nHeight == b.pprev.nHeight + 1 && b.nHeight < INT_LIMIT
      && b.nChainWork > b.pprev.nChainWork
      && Rooted(b.pprev, genesis)
  }

  ghost function AncestorAt(b: BlockIndex, genesis: BlockIndex, h: nat): (a: BlockIndex)
    requires Rooted(b, genesis) && h <= b.nHeight
    ensures Rooted(a, genesis) && a.nHeight == h
    decreases b.nHeight
  {
    if h == b.nHeight then b else AncestorAt(b.pprev, genesis, h)
  }

  /** a is b or an ancestor of b. */
  ghost predicate IsAncestor(a: BlockIndex, b: BlockIndex, genesis: BlockIndex)
    requires Rooted(b, genesis)
  {
    a.nHeight <= b.nHeight && AncestorAt(b, genesis, a.nHeight) == a
  }

  lemma {:induction false} AncestorTransitive(b: BlockIndex, genesis: BlockIndex, h: nat, k: nat)
    requires Rooted(b, genesis) && k <= h <= b.nHeight
    ensures AncestorAt(AncestorAt(b, genesis, h), genesis, k) == AncestorAt(b, genesis, k)
    decreases b.nHeight
  {
    if h < b.nHeight {
      AncestorTransitive(b.pprev, genesis, h, k);
    }
  }

  /** Walking down pprev from an ancestor stays on the branch. */
  lemma AncestorParent(b: BlockIndex, genesis: BlockIndex, h: nat)
    requires Rooted(b, genesis) && 1 <= h <= b.nHeight
    ensures AncestorAt(b, genesis, h).pprev == AncestorAt(b, genesis, h - 1)
  {
    var a := AncestorAt(b, genesis, h);
    AncestorTransitive(b, genesis, h, h - 1);
    assert AncestorAt(a, genesis, h - 1) == AncestorAt(a.pprev, genesis, h - 1);
  }

  lemma RootIsGenesis(b: BlockIndex, genesis: BlockIndex)
    requires Rooted(b, genesis)
    ensures AncestorAt(b, genesis, 0) == genesis
    decreases b.nHeight
  {
    if b.pprev != null {
      RootIsGenesis(b.pprev, genesis);
    }
  }

  lemma {:induction false} WorkGrows(b: BlockIndex, genesis: BlockIndex, h: nat)
    requires Rooted(b, genesis) && h < b.nHeight
    ensures AncestorAt(b, genesis, h).nChainWork < b.nChainWork
    decreases b.nHeight
  {
    if h < b.nHeight - 1 {
      WorkGrows(b.pprev, genesis, h);
    }
  }

  // ---------- replaying a branch

  /** The unspent coins after connecting genesis..b in order. Genesis outputs are never added. */
  ghost function Replay(rules: Rules, genesis: BlockIndex, b: BlockIndex): CoinMap
    requires Rooted(b, genesis)
    decreases b.nHeight
  {
    if b.pprev == null then map[]
    else
      match Connect(rules, Replay(rules, genesis, b.pprev), b.block, b.nHeight)
      case None => map[]
      case Some((m, _)) => m
  }

  /** Every block of the branch obeys the rules at its place. */
  ghost predicate BranchValid(rules: Rules, genesis: BlockIndex, b: BlockIndex)
    requires Rooted(b, genesis)
    decreases b.nHeight
  {
    if b.pprev == null then WellFormedBlock(b.block)
    else
      && BranchValid(rules, genesis, b.pprev)
      && Connect(rules, Replay(rules, genesis, b.pprev), b.block, b.nHeight).Some?
  }

  /** The undo record of a block: a function of the branch that leads to it. */
  ghost function UndoOf(rules: Rules, genesis: BlockIndex, b: BlockIndex): BlockUndo
    requires Rooted(b, genesis) && b.pprev != null && BranchValid(rules, genesis, b)
  {
    Connect(rules, Replay(rules, genesis, b.pprev), b.block, b.nHeight).value.1
  }

  lemma {:induction false} ReplayGood(rules: Rules, genesis: BlockIndex, b: BlockIndex)
    requires Rooted(b, genesis) && BranchValid(rules, genesis, b)
    ensures GoodMap(Replay(rules, genesis, b))
    decreases b.nHeight
  {
    if b.pprev != null {
      ReplayGood(rules, genesis, b.pprev);
      var m := Replay(rules, genesis, b.pprev);
      DisconnectUndoesConnect(rules, m, b.block, b.nHeight, Connect(rules, m, b.block, b.nHeight).value.0);
    }
  }

  /** An invalid ancestor spoils the branch. */
  lemma {:induction false} AncestorsValid(rules: Rules, genesis: BlockIndex, b: BlockIndex, h: nat)
    requires Rooted(b, genesis) && BranchValid(rules, genesis, b) && h <= b.nHeight
    ensures BranchValid(rules, genesis, AncestorAt(b, genesis, h))
    decreases b.nHeight
  {
    if h < b.nHeight {
      AncestorsValid(rules, genesis, b.pprev, h);
    }
  }
}
