/** Chain selection: SetBestChain, ConnectBestBlock, FindBlockByHeight and the state they share. */
module ChainStates {
  import opened Basics
  import opened Transactions
  import opened CoinsRules
  import opened Ledger
  import opened BlockRules
  import opened BlockTree
  import opened CoinsViews
  import opened Connecting

  /** Disk behaviour during one SetBestChain call. `flushTip` is the decision to push pcoinsTip to the database. */
  datatype ChainIo = ChainIo(block: BlockIndex -> BlockIo, flushTip: bool, diskSpaceOk: bool, dbWriteOk: bool)

  /** Halted is a failure after the scratch view has been flushed. The source then asks for a shutdown, which another
      thread carries out some time later, so further calls may follow. */
  datatype Outcome = Switched | Invalid | IoFailed | Halted

  // ---------- one block, seen from genesis

  /** The view stands at b: it names b as best block and shows the coins of genesis..b. */
  ghost predicate Stands(rules: Rules, genesis: BlockIndex, view: ViewCache, b: BlockIndex?)
    requires view.Valid()
    requires b != null ==> Rooted(b, genesis)
    reads view.views, view.db
  {
    && view.Best() == b
    && (b == null ==> Same(view.Contents(), map[]))
    && (b != null ==> BranchValid(rules, genesis, b) && Same(view.Contents(), Replay(rules, genesis, b)))
  }

  lemma GoodSame(m1: CoinMap, m2: CoinMap)
    requires Same(m1, m2) && GoodMap(m2)
    ensures GoodMap(m1)
  {
    forall id ensures At(m1, id) == EMPTY_COINS || Stored(At(m1, id)) {
      assert At(m1, id) == At(m2, id);
    }
  }

  /** Coins a view may stand at before b is connected. */
  lemma BeforeBlock(rules: Rules, genesis: BlockIndex, b: BlockIndex, m: CoinMap)
    requires Rooted(b, genesis) && b.pprev != null && BranchValid(rules, genesis, b.pprev)
    requires Same(m, Replay(rules, genesis, b.pprev))
    ensures GoodMap(m)
    ensures Connect(rules, m, b.block, b.nHeight).Some? <==> BranchValid(rules, genesis, b)
    ensures BranchValid(rules, genesis, b) ==>
              var (m', undo) := Connect(rules, m, b.block, b.nHeight).value;
              Same(m', Replay(rules, genesis, b)) && undo == UndoOf(rules, genesis, b)
  {
    ReplayGood(rules, genesis, b.pprev);
    GoodSame(m, Replay(rules, genesis, b.pprev));
    ConnectSame(rules, m, Replay(rules, genesis, b.pprev), b.block, b.nHeight);
  }

  lemma BeforeGenesis(rules: Rules, genesis: BlockIndex, m: CoinMap)
    requires Rooted(genesis, genesis) && genesis.pprev == null && Same(m, map[])
    ensures GoodMap(m) && Replay(rules, genesis, genesis) == map[]
    ensures BranchValid(rules, genesis, genesis) <==> WellFormedBlock(genesis.block)
  {
    GoodSame(m, map[]);
  }

  /** Undo data that is a function of the branch takes any view standing at b back to its parent, cleanly. */
  lemma AfterBlock(rules: Rules, genesis: BlockIndex, b: BlockIndex, m: CoinMap)
    requires Rooted(b, genesis) && b.pprev != null && BranchValid(rules, genesis, b)
    requires Same(m, Replay(rules, genesis, b))
    ensures var r := DisconnectBlock(m, b.block.vtx, UndoOf(rules, genesis, b), b.nHeight);
            r.Some? && r.value.1 && Same(r.value.0, Replay(rules, genesis, b.pprev))
  {
    ReplayGood(rules, genesis, b.pprev);
    DisconnectUndoesConnect(rules, Replay(rules, genesis, b.pprev), b.block, b.nHeight, m);
  }

  // ---------- the active successor

  /** What b.pnext should be when t is the best block. */
  ghost function NextOf(genesis: BlockIndex, t: BlockIndex?, b: BlockIndex): BlockIndex?
    requires t != null ==> Rooted(t, genesis)
  {
    if t != null && b.nHeight < t.nHeight && AncestorAt(t, genesis, b.nHeight) == b
    then AncestorAt(t, genesis, b.nHeight + 1) else null
  }

  /** A branch read bottom-up: AncestorAt(t, lo), .., t. */
  ghost predicate IsBranch(genesis: BlockIndex, t: BlockIndex, lo: nat, s: seq<BlockIndex>)
    requires Rooted(t, genesis)
  {
    lo <= t.nHeight + 1 && |s| == t.nHeight + 1 - lo
    && forall i {:trigger s[i]} :: 0 <= i < |s| ==> s[i] == AncestorAt(t, genesis, lo + i)
  }

  /** A branch read top-down: t, its parent, and so on. */
  ghost predicate IsDescent(genesis: BlockIndex, t: BlockIndex, s: seq<BlockIndex>)
    requires Rooted(t, genesis)
  {
    |s| <= t.nHeight + 1
    && forall i {:trigger s[i]} :: 0 <= i < |s| ==> s[i] == AncestorAt(t, genesis, t.nHeight - i)
  }

  ghost function HeightAbove(fork: BlockIndex?): nat {
    if fork == null then 0 else fork.nHeight + 1
  }

  /** The blocks from b down to, not including, the fork, as the source collects them. */
  method Collect(genesis: BlockIndex, b: BlockIndex, fork: BlockIndex?) returns (down: seq<BlockIndex>)
    requires Rooted(b, genesis)
    requires fork != null ==> IsAncestor(fork, b, genesis)
    ensures |down| == b.nHeight + 1 - HeightAbove(fork)
    ensures IsDescent(genesis, b, down)
  {
    down := [];
    var pindex: BlockIndex? := b;
    while pindex != fork
      invariant |down| <= b.nHeight + 1 - HeightAbove(fork)
      invariant IsDescent(genesis, b, down)
      invariant if |down| == b.nHeight + 1 then pindex == null
                else pindex == AncestorAt(b, genesis, b.nHeight - |down|)
      decreases b.nHeight + 1 - |down|
    {
      if |down| < b.nHeight {
        AncestorParent(b, genesis, b.nHeight - |down|);
      }
      down := down + [pindex];
      pindex := pindex.pprev;
    }
  }

  method Reverse(s: seq<BlockIndex>) returns (r: seq<BlockIndex>)
    ensures |r| == |s| && forall i :: 0 <= i < |s| ==> r[i] == s[|s| - 1 - i]
  {
    r := [];
    for i := 0 to |s|
      invariant |r| == i && forall k :: 0 <= k < i ==> r[k] == s[|s| - 1 - k]
    {
      r := r + [s[|s| - 1 - i]];
    }
  }

  /** The fork walk of SetBestChain ends at the deepest common ancestor; its assertions hold because both
      branches start at genesis. */
  method FindFork(genesis: BlockIndex, cur: BlockIndex, pindexNew: BlockIndex) returns (pfork: BlockIndex)
    requires Rooted(cur, genesis) && Rooted(pindexNew, genesis)
    ensures IsAncestor(pfork, cur, genesis) && IsAncestor(pfork, pindexNew, genesis)
    ensures forall h :: pfork.nHeight < h <= cur.nHeight && h <= pindexNew.nHeight ==>
              AncestorAt(cur, genesis, h) != AncestorAt(pindexNew, genesis, h)
  {
    var walk: BlockIndex? := cur;
    var plonger: BlockIndex? := pindexNew;
    while walk != plonger
      invariant walk != null && IsAncestor(walk, cur, genesis)
      invariant plonger != null && IsAncestor(plonger, pindexNew, genesis)
      invariant plonger.nHeight == pindexNew.nHeight || plonger.nHeight >= walk.nHeight
      invariant forall h :: walk.nHeight < h <= cur.nHeight && h <= pindexNew.nHeight ==>
                  AncestorAt(cur, genesis, h) != AncestorAt(pindexNew, genesis, h)
      decreases walk.nHeight + plonger.nHeight
    {
      while plonger.nHeight > walk.nHeight
        invariant plonger != null && IsAncestor(plonger, pindexNew, genesis)
        invariant plonger.nHeight == pindexNew.nHeight || plonger.nHeight >= walk.nHeight
        decreases plonger.nHeight
      {
        AncestorParent(pindexNew, genesis, plonger.nHeight);
        plonger := plonger.pprev;
        assert plonger != null;
      }
      if walk == plonger {
        break;
      }
      RootIsGenesis(cur, genesis);
      RootIsGenesis(pindexNew, genesis);
      if walk.nHeight > 0 {
        AncestorParent(cur, genesis, walk.nHeight);
      }
      walk := walk.pprev;
      assert walk != null;
    }
    pfork := walk;
  }

  /** No disk trouble once the scratch view has been flushed. */
  predicate FlushOk(io: ChainIo) {
    io.flushTip ==> io.diskSpaceOk && io.dbWriteOk
  }

  ghost predicate BlockIoOk(io: BlockIo) {
    io.readOk && io.undoReadOk && io.undoWriteOk && io.indexWriteOk && io.txIndexOk
  }

  ghost predicate PathOk(io: ChainIo, path: seq<BlockIndex>) {
    forall i :: 0 <= i < |path| ==> BlockIoOk(io.block(path[i]))
  }

  ghost predicate ParentIn(b: BlockIndex, index: set<BlockIndex>) {
    b.pprev != null ==> b.pprev in index
  }

  class ChainState {
    const rules: Rules
    const genesis: BlockIndex
    const tip: ViewCache
    const threads: bool
    var index: set<BlockIndex>
    var best: BlockIndex?
    var valid: set<BlockIndex>
    var fbbhLast: BlockIndex?

    /** An empty node: no block indexed, no coins. */
    constructor (rules: Rules, genesis: BlockIndex, tip: ViewCache, threads: bool)
      requires tip.Valid() && tip.base == null && tip.Best() == null && Same(tip.Contents(), map[])
      requires genesis.pprev == null && genesis.nHeight == 0
      ensures Inv() && InStep() && index == {} && best == null
      ensures this.rules == rules && this.genesis == genesis && this.tip == tip
    {
      this.rules, this.genesis, this.tip, this.threads := rules, genesis, tip, threads;
      index, best, valid, fbbhLast := {}, null, {}, null;
    }

    ghost predicate IndexOk()
      reads `index
    {
      && tip.Valid() && tip.base == null
      && (forall b :: b in index ==> Rooted(b, genesis))
      && (forall b {:trigger ParentIn(b, index)} :: b in index ==> ParentIn(b, index))
      && (forall a, b :: a in index && b in index && a.hash == b.hash ==> a == b)
    }

    ghost predicate Tree()
      reads `index, `best
    {
      IndexOk() && (best != null ==> best in index)
    }

    /** Stored undo data is the undo data of the block's own branch. */
    ghost predicate UndoOk()
      requires IndexOk()
      reads `index, index`undo
    {
      forall b :: b in index && b.undo.Some? ==>
        b.pprev != null && BranchValid(rules, genesis, b) && b.undo.value == UndoOf(rules, genesis, b)
    }

    /** Every block of the branch except genesis has undo data. */
    ghost predicate HasUndo(t: BlockIndex?)
      requires t != null ==> Rooted(t, genesis)
      reads `index, index`undo
    {
      t != null ==> forall b :: b in index && b.pprev != null && IsAncestor(b, t, genesis) ==> b.undo.Some?
    }

    ghost predicate LinksTo(t: BlockIndex?)
      requires t != null ==> Rooted(t, genesis)
      reads `index, index`pnext
    {
      forall b :: b in index ==> b.pnext == NextOf(genesis, t, b)
    }

    /** setBlockIndexValid holds exactly the blocks that are not marked failed, and no valid branch is marked. */
    ghost predicate FlagsOk()
      requires IndexOk()
      reads `index, `valid, index`fFailedValid, index`fFailedChild
    {
      && valid <= index
      && (forall b :: b in index ==> (b in valid <==> !b.Failed()))
      && (forall b :: b in index && b.Failed() ==> !BranchValid(rules, genesis, b))
    }

    /** The coin view names some block of the index as best and shows exactly the coins of its branch. */
    ghost predicate CoinsOk()
      requires IndexOk()
      reads `index, index`undo, tip.views, tip.db
    {
      && (tip.Best() != null ==> tip.Best() in index)
      && HasUndo(tip.Best())
      && Stands(rules, genesis, tip, tip.Best())
    }

    /** Every active-successor link leads to a child on a branch that obeys the rules. */
    ghost predicate PnextOk()
      requires IndexOk()
      reads `index, index`pnext
    {
      forall b :: b in index && b.pnext != null ==>
        b.pnext in index && b.pnext.pprev == b && BranchValid(rules, genesis, b.pnext)
    }

    /** What links, best pointer and the last answer of FindBlockByHeight promise after any calls at all. */
    ghost predicate PointersOk()
      requires IndexOk()
      reads `index, `best, `fbbhLast, index`pnext
    {
      && PnextOk()
      && (best != null ==> best in index && BranchValid(rules, genesis, best))
      && (fbbhLast != null ==> fbbhLast in index && BranchValid(rules, genesis, fbbhLast))
    }

    /** Holds after every sequence of calls, whatever the disk does. */
    ghost predicate Inv()
      reads this, index, tip.views, tip.db
    {
      Tree() && UndoOk() && FlagsOk() && CoinsOk() && PointersOk()
    }

    /** The links mark exactly the branch of the best block, and the last answer lies on it. */
    ghost predicate Linked()
      requires Tree()
      reads `index, `best, `fbbhLast, index`pnext
    {
      LinksTo(best) && (fbbhLast != null ==> OnBranch(fbbhLast, best))
    }

    /** Best pointer and links follow the coins. Lost when a call ends Halted. */
    ghost predicate InStep()
      requires Tree()
      reads `index, `best, `fbbhLast, index`pnext, tip.views, tip.db
    {
      tip.Best() == best && Linked()
    }

    ghost predicate OnBranch(b: BlockIndex, t: BlockIndex?)
      requires t != null ==> Rooted(t, genesis)
    {
      t != null && IsAncestor(b, t, genesis)
    }

    /** No disk trouble before the flush, for the blocks on one of the two branches but not on both. */
    ghost predicate BlocksOk(io: ChainIo, cur: BlockIndex?, t: BlockIndex)
      requires IndexOk() && t in index && (cur != null ==> cur in index)
      reads `index
    {
      forall b :: b in index && OnBranch(b, cur) != OnBranch(b, t) ==> BlockIoOk(io.block(b))
    }

    ghost predicate AllBlocksOk(io: ChainIo)
      reads `index
    {
      forall b :: b in index ==> BlockIoOk(io.block(b))
    }

    lemma AncestorIndexed(b: BlockIndex, h: nat)
      requires IndexOk() && b in index && h <= b.nHeight
      ensures AncestorAt(b, genesis, h) in index
      decreases b.nHeight
    {
      if h < b.nHeight {
        assert ParentIn(b, index);
        AncestorIndexed(b.pprev, h);
      }
    }

    lemma HasUndoBelow(t: BlockIndex, h: nat)
      requires Rooted(t, genesis) && h <= t.nHeight && HasUndo(t)
      ensures HasUndo(AncestorAt(t, genesis, h))
    {
      var b := AncestorAt(t, genesis, h);
      forall a | a in index && a.pprev != null && IsAncestor(a, b, genesis) ensures a.undo.Some? {
        AncestorTransitive(t, genesis, h, a.nHeight);
        assert IsAncestor(a, t, genesis);
      }
    }

    lemma AncestorSelf(t: BlockIndex)
      requires Rooted(t, genesis)
      ensures AncestorAt(t, genesis, t.nHeight) == t
    {
    }

    // ---------- the two branches

    /** Disconnects one block from the scratch view. */
    method DisconnectOne(view: ViewCache, b: BlockIndex, io: BlockIo) returns (ok: bool)
      requires Tree() && UndoOk() && b in index && b.pprev != null && HasUndo(b)
      requires view.Valid() && Stands(rules, genesis, view, b)
      modifies view.views
      ensures view.BelowKept()
      ensures ok ==> Stands(rules, genesis, view, b.pprev)
      ensures BlockIoOk(io) ==> ok
    {
      hide ViewCache.Contents, ViewCache.Best, DisconnectBlock, Connect, Replay, GoodMap;
      if !io.readOk {
        return false;
      }
      AfterBlock(rules, genesis, b, view.Contents());
      assert IsAncestor(b, b, genesis);
      var clean := DisconnectIndexed(view, b, io);
      return clean == Some(true);
    }

    method DisconnectAll(view: ViewCache, cur: BlockIndex, fork: BlockIndex, down: seq<BlockIndex>, io: ChainIo)
      returns (ok: bool)
      requires Tree() && UndoOk() && cur in index && HasUndo(cur)
      requires view.Valid() && Stands(rules, genesis, view, cur)
      requires IsAncestor(fork, cur, genesis) && |down| == cur.nHeight - fork.nHeight
      requires IsDescent(genesis, cur, down)
      modifies view.views
      ensures view.BelowKept()
      ensures ok ==> Stands(rules, genesis, view, fork)
      ensures PathOk(io, down) ==> ok
    {
      hide ViewCache.Contents, ViewCache.Best, Stands, UndoOk, HasUndo, ViewCache.Valid, Rooted;
      for k := 0 to |down|
        invariant view.BelowKept()
        invariant Stands(rules, genesis, view, AncestorAt(cur, genesis, cur.nHeight - k))
      {
        var b := down[k];
        AncestorIndexed(cur, cur.nHeight - k);
        AncestorParent(cur, genesis, cur.nHeight - k);
        HasUndoBelow(cur, cur.nHeight - k);
        ok := DisconnectOne(view, b, io.block(b));
        if !ok {
          return;
        }
      }
      ok := true;
    }

    /** Connects one block to the scratch view, writing its undo data the first time. */
    method ConnectOne(view: ViewCache, b: BlockIndex, io: BlockIo) returns (r: ConnectResult)
      requires Tree() && UndoOk() && b in index && HasUndo(b.pprev)
      requires view.Valid() && Stands(rules, genesis, view, b.pprev)
      modifies view.views, b`undo, b`fScriptsValid
      ensures view.BelowKept() && UndoOk()
      ensures old(b.undo).Some? ==> b.undo == old(b.undo)
      ensures r.Connected? ==> Stands(rules, genesis, view, b) && HasUndo(b) && view.pindexTip != null
      ensures r.Rejected? <==> (!BranchValid(rules, genesis, b) && io.readOk)
      ensures BlockIoOk(io) ==> !r.IoError?
    {
      hide ViewCache.Contents, ViewCache.Best, Connect, Replay, GoodMap;
      if !io.readOk {
        return IoError;
      }
      if b.pprev != null {
        BeforeBlock(rules, genesis, b, view.Contents());
      } else {
        BeforeGenesis(rules, genesis, view.Contents());
      }
      r := ConnectBlock(rules, view, b, io, threads);
    }

    /** The block below height h on t's branch, null under genesis. */
    ghost function Below(t: BlockIndex, h: nat): (b: BlockIndex?)
      requires Rooted(t, genesis) && h <= t.nHeight + 1
      ensures b != null ==> Rooted(b, genesis)
    {
      if h == 0 then null else AncestorAt(t, genesis, h - 1)
    }

    lemma BelowIsParent(t: BlockIndex, h: nat)
      requires Rooted(t, genesis) && h <= t.nHeight
      ensures AncestorAt(t, genesis, h).pprev == Below(t, h)
      ensures Below(t, h + 1) == AncestorAt(t, genesis, h)
    {
      if h > 0 {
        AncestorParent(t, genesis, h);
      }
    }

    twostate predicate UndoKept()
      reads `index, index`undo
    {
      forall b :: b in index && b in old(index) && old(b.undo).Some? ==> b.undo == old(b.undo)
    }

    method ConnectAll(view: ViewCache, t: BlockIndex, ghost lo: nat, up: seq<BlockIndex>, io: ChainIo)
      returns (r: ConnectResult, failed: BlockIndex?)
      requires Tree() && UndoOk() && t in index && IsBranch(genesis, t, lo, up)
      requires HasUndo(Below(t, lo))
      requires view.Valid() && Stands(rules, genesis, view, Below(t, lo))
      modifies view.views, index`undo, index`fScriptsValid
      ensures view.BelowKept() && UndoOk() && UndoKept()
      ensures r.Connected? ==> Stands(rules, genesis, view, t) && HasUndo(t)
      ensures r.Connected? && up != [] ==> view.pindexTip != null
      ensures r.Rejected? ==> failed != null && failed in up && !BranchValid(rules, genesis, failed)
                              && (failed.pprev != null ==> BranchValid(rules, genesis, failed.pprev))
      ensures PathOk(io, up) ==> !r.IoError?
    {
      hide ViewCache.Contents, ViewCache.Best, Stands, UndoOk, HasUndo, ViewCache.Valid, Rooted, AncestorAt,
           BranchValid;
      AncestorSelf(t);
      r, failed := Connected, null;
      for k := 0 to |up|
        invariant view.BelowKept() && UndoOk() && UndoKept() && r.Connected?
        invariant k > 0 ==> view.pindexTip != null
        invariant Stands(rules, genesis, view, Below(t, lo + k)) && HasUndo(Below(t, lo + k))
      {
        var b := up[k];
        AncestorIndexed(t, lo + k);
        BelowIsParent(t, lo + k);
        assert ParentIn(b, index);
        if b.pprev != null {
          StandsValid(view, b.pprev);
        }
        r := ConnectOne(view, b, io.block(b));
        if !r.Connected? {
          failed := b;
          return;
        }
      }
    }

    // ---------- links

    /** b lies on the branch of `to`, and the next block there is not on the branch of `from`. */
    ghost predicate Steps(from: BlockIndex?, to: BlockIndex?, b: BlockIndex)
      requires (from != null ==> Rooted(from, genesis)) && (to != null ==> Rooted(to, genesis))
    {
      && to != null && b.nHeight < to.nHeight && IsAncestor(b, to, genesis)
      && !OnBranch(AncestorAt(to, genesis, b.nHeight + 1), from)
    }

    /** The link of b after a switch of the coins from cur to t: changed on the two branches above the fork only. */
    ghost function Relinked(cur: BlockIndex?, t: BlockIndex, b: BlockIndex, was: BlockIndex?): BlockIndex?
      requires (cur != null ==> Rooted(cur, genesis)) && Rooted(t, genesis)
    {
      if Steps(cur, t, b) then AncestorAt(t, genesis, b.nHeight + 1)
      else if Steps(t, cur, b) then null
      else was
    }

    /** The links a switch from cur to t will not touch are those of cur. */
    ghost predicate LinksAway(cur: BlockIndex?, t: BlockIndex)
      requires (cur != null ==> Rooted(cur, genesis)) && Rooted(t, genesis)
      reads `index, index`pnext
    {
      forall b :: b in index ==> Steps(cur, t, b) || Steps(t, cur, b) || b.pnext == NextOf(genesis, cur, b)
    }

    /** Where the next block of one branch lies on the other, it is the next block there too. */
    lemma SharedNext(s: BlockIndex, t: BlockIndex, b: BlockIndex)
      requires Rooted(s, genesis) && Rooted(t, genesis) && b.nHeight < s.nHeight && IsAncestor(b, s, genesis)
      requires OnBranch(AncestorAt(s, genesis, b.nHeight + 1), t)
      ensures NextOf(genesis, t, b) == NextOf(genesis, s, b)
    {
      AncestorTransitive(s, genesis, b.nHeight + 1, b.nHeight);
      AncestorTransitive(t, genesis, b.nHeight + 1, b.nHeight);
    }

    /** A switch leaves the right link exactly where it changes the link or the link was right before. */
    lemma RelinkedRight(cur: BlockIndex?, t: BlockIndex, b: BlockIndex, was: BlockIndex?)
      requires (cur != null ==> Rooted(cur, genesis)) && Rooted(t, genesis)
      ensures Relinked(cur, t, b, was) == NextOf(genesis, t, b)
              <==> Steps(cur, t, b) || Steps(t, cur, b) || was == NextOf(genesis, cur, b)
    {
      hide AncestorAt, Rooted;
      if NextOf(genesis, t, b) != null && !Steps(cur, t, b) {
        SharedNext(t, cur, b);
      }
      if NextOf(genesis, cur, b) != null && !Steps(t, cur, b) {
        SharedNext(cur, t, b);
      }
    }

    /** Above the deepest common ancestor the branches share no block, below it they share all. */
    lemma StepsAbove(from: BlockIndex?, to: BlockIndex?, pfork: BlockIndex?, b: BlockIndex)
      requires IsFork(from, pfork, to)
      ensures Steps(from, to, b) <==>
              OnBranch(b, to) && b.nHeight < to.nHeight && HeightAbove(pfork) <= b.nHeight + 1
    {
      if OnBranch(b, to) && b.nHeight < to.nHeight && from != null && b.nHeight < pfork.nHeight {
        AncestorTransitive(to, genesis, pfork.nHeight, b.nHeight + 1);
        AncestorTransitive(from, genesis, pfork.nHeight, b.nHeight + 1);
      }
    }

    /** Clears the links below the blocks of `down`. */
    method UnlinkAll(ghost cur: BlockIndex?, ghost lo: nat, down: seq<BlockIndex>)
      requires Tree() && (cur == null ==> down == [])
      requires cur != null ==> cur in index && |down| == cur.nHeight + 1 - lo && IsDescent(genesis, cur, down)
      modifies index`pnext
      ensures forall b :: b in index ==>
                b.pnext == if OnBranch(b, cur) && lo <= b.nHeight + 1 <= cur.nHeight then null else old(b.pnext)
    {
      hide AncestorAt, Rooted;
      if cur != null {
        AncestorSelf(cur);
      }
      for k := 0 to |down|
        invariant forall b :: b in index ==>
                    b.pnext == if OnBranch(b, cur) && cur.nHeight - k <= b.nHeight < cur.nHeight then null
                               else old(b.pnext)
      {
        var b := down[k];
        AncestorIndexed(cur, cur.nHeight - k);
        BelowIsParent(cur, cur.nHeight - k);
        assert ParentIn(b, index);
        if b.pprev != null {
          b.pprev.pnext := null;
        }
      }
    }

    /** Links every block of `up` to its parent. */
    method LinkAll(ghost t: BlockIndex, ghost lo: nat, up: seq<BlockIndex>)
      requires Tree() && t in index && IsBranch(genesis, t, lo, up)
      modifies index`pnext
      ensures forall b :: b in index ==>
                b.pnext == if OnBranch(b, t) && lo <= b.nHeight + 1 <= t.nHeight
                           then AncestorAt(t, genesis, b.nHeight + 1) else old(b.pnext)
    {
      hide AncestorAt, Rooted;
      AncestorSelf(t);
      for k := 0 to |up|
        invariant forall b :: b in index ==>
                    b.pnext == if OnBranch(b, t) && lo <= b.nHeight + 1 < lo + k
                               then AncestorAt(t, genesis, b.nHeight + 1) else old(b.pnext)
      {
        var b := up[k];
        AncestorIndexed(t, lo + k);
        BelowIsParent(t, lo + k);
        assert ParentIn(b, index);
        if b.pprev != null {
          b.pprev.pnext := b;
        }
      }
    }

    lemma LinkedIsValid(b: BlockIndex)
      requires IndexOk() && PnextOk() && b in index
      ensures b.pnext != null ==> BranchValid(rules, genesis, b)
    {
    }

    /** Marks a block failed. The source would reorganise away from it if it had an active successor; it has none. */
    method InvalidBlockFound(b: BlockIndex)
      requires Inv() && b in index && !BranchValid(rules, genesis, b)
      modifies this`valid, b`fFailedValid
      ensures Inv() && valid == old(valid) - {b} && b.fFailedValid && b.pnext == null
    {
      hide ViewCache.Contents, ViewCache.Best, Stands, AncestorAt, Rooted, BranchValid;
      LinkedIsValid(b);
      b.fFailedValid := true;
      valid := valid - {b};
    }

    // ---------- SetBestChain

    /** The branch of a block that fails to connect is refused; nothing but its mark and the candidates change. */
    method Refuse(failed: BlockIndex)
      requires Inv() && failed in index && !BranchValid(rules, genesis, failed)
      modifies this`valid, failed`fFailedValid
      ensures Inv() && valid == old(valid) - {failed} && failed.fFailedValid
      ensures CoinsKept() && PointersKept()
    {
      hide UndoOk, FlagsOk, CoinsOk, PointersOk, Rooted, BranchValid, ViewCache.Contents, ViewCache.Best;
      InvalidBlockFound(failed);
    }

    twostate predicate CoinsKept()
      requires tip.Valid()
      reads tip.views, tip.db
    {
      tip.Contents() == old(tip.Contents()) && tip.Best() == old(tip.Best())
    }

    twostate predicate PointersKept()
      reads this, index
    {
      && index == old(index) && best == old(best) && fbbhLast == old(fbbhLast)
      && forall b :: b in index ==> b.pnext == old(b.pnext)
    }

    /** No block of the index is found invalid. */
    twostate predicate NoneFound()
      reads this, index
    {
      index == old(index) && forall b :: b in index ==> b.fFailedValid == old(b.fFailedValid)
    }

    /** Some block of the index is found invalid that was not known to be. */
    twostate predicate SomeFound()
      reads this, index
    {
      index == old(index) && exists b :: b in index && b.fFailedValid && !old(b.fFailedValid)
    }

    /** pfork is the deepest common ancestor, null while nothing is connected. */
    ghost predicate IsFork(cur: BlockIndex?, pfork: BlockIndex?, t: BlockIndex?)
    {
      && (cur != null ==> Rooted(cur, genesis)) && (t != null ==> Rooted(t, genesis))
      && (pfork == null <==> cur == null || t == null)
      && (pfork != null ==>
            && IsAncestor(pfork, cur, genesis) && IsAncestor(pfork, t, genesis)
            && forall h :: pfork.nHeight < h <= cur.nHeight && h <= t.nHeight ==>
                 AncestorAt(cur, genesis, h) != AncestorAt(t, genesis, h))
    }

    /** The blocks of either list lie on one of the branches only. */
    lemma PathsOk(io: ChainIo, cur: BlockIndex?, pfork: BlockIndex?, t: BlockIndex, path: seq<BlockIndex>)
      requires IndexOk() && t in index && (cur != null ==> cur in index) && BlocksOk(io, cur, t)
      requires IsFork(cur, pfork, t)
      requires forall i :: 0 <= i < |path| ==>
                 path[i] in index && HeightAbove(pfork) <= path[i].nHeight
                 && (OnBranch(path[i], cur) || OnBranch(path[i], t))
      ensures PathOk(io, path)
    {
      hide BlockIoOk, Rooted, AncestorAt;
      forall i | 0 <= i < |path| ensures BlockIoOk(io.block(path[i])) {
        assert OnBranch(path[i], cur) != OnBranch(path[i], t);
      }
    }

    /** Takes the scratch view down to the fork. */
    method LeaveBranch(view: ViewCache, cur: BlockIndex, pindexNew: BlockIndex, io: ChainIo)
      returns (ok: bool, pfork: BlockIndex, down: seq<BlockIndex>)
      requires Tree() && UndoOk() && cur in index && pindexNew in index && HasUndo(cur)
      requires view.Valid() && Stands(rules, genesis, view, cur)
      modifies view.views
      ensures view.BelowKept()
      ensures BlocksOk(io, cur, pindexNew) ==> ok
      ensures IsFork(cur, pfork, pindexNew)
      ensures |down| == cur.nHeight - pfork.nHeight
      ensures IsDescent(genesis, cur, down)
      ensures ok ==> Stands(rules, genesis, view, pfork) && HasUndo(pfork)
    {
      hide ViewCache.Contents, ViewCache.Best, Stands, UndoOk, HasUndo, BranchValid, Rooted, AncestorAt, BlocksOk;
      pfork := FindFork(genesis, cur, pindexNew);
      down := Collect(genesis, cur, pfork);
      HasUndoBelow(cur, pfork.nHeight);
      ok := DisconnectAll(view, cur, pfork, down, io);
      if BlocksOk(io, cur, pindexNew) {
        forall i | 0 <= i < |down| ensures down[i] in index {
          AncestorIndexed(cur, cur.nHeight - i);
        }
        PathsOk(io, cur, pfork, pindexNew, down);
      }
    }

    /** Takes the scratch view from the fork up to the new tip. */
    method JoinBranch(view: ViewCache, ghost cur: BlockIndex?, pfork: BlockIndex?, pindexNew: BlockIndex, io: ChainIo)
      returns (r: ConnectResult, failed: BlockIndex?, up: seq<BlockIndex>)
      requires Tree() && UndoOk() && pindexNew in index && (cur != null ==> cur in index)
      requires IsFork(cur, pfork, pindexNew)
      requires view.Valid() && HasUndo(pfork) && Stands(rules, genesis, view, pfork)
      modifies view.views, index`undo, index`fScriptsValid
      ensures view.BelowKept() && UndoOk() && UndoKept()
      ensures BlocksOk(io, cur, pindexNew) ==> !r.IoError?
      ensures Below(pindexNew, HeightAbove(pfork)) == pfork && IsBranch(genesis, pindexNew, HeightAbove(pfork), up)
      ensures r.Connected? ==> Stands(rules, genesis, view, pindexNew) && HasUndo(pindexNew)
      ensures r.Connected? && pfork == null ==> view.pindexTip != null
      ensures r.Rejected? ==> failed != null && failed in index && IsAncestor(failed, pindexNew, genesis)
                              && !OnBranch(failed, cur) && !BranchValid(rules, genesis, failed)
                              && (failed.pprev != null ==> BranchValid(rules, genesis, failed.pprev))
    {
      hide ViewCache.Contents, ViewCache.Best, Stands, UndoOk, HasUndo, BranchValid, Rooted, AncestorAt, BlocksOk;
      var down := Collect(genesis, pindexNew, pfork);
      up := Reverse(down);
      ghost var lo := HeightAbove(pfork);
      assert Below(pindexNew, lo) == pfork;
      forall i | 0 <= i < |up| ensures up[i] in index && OnBranch(up[i], pindexNew) && !OnBranch(up[i], cur) {
        AncestorIndexed(pindexNew, lo + i);
      }
      if BlocksOk(io, cur, pindexNew) {
        PathsOk(io, cur, pfork, pindexNew, up);
      }
      r, failed := ConnectAll(view, pindexNew, lo, up, io);
    }

    /** vDisconnect and vConnect: from the current best block down to the fork, and from there up to t. */
    ghost predicate IsPlan(cur: BlockIndex?, pfork: BlockIndex?, t: BlockIndex, down: seq<BlockIndex>,
                           up: seq<BlockIndex>)
      requires (cur != null ==> Rooted(cur, genesis)) && Rooted(t, genesis)
    {
      && IsFork(cur, pfork, t) && (cur == null ==> down == [])
      && (cur != null ==> |down| == cur.nHeight - pfork.nHeight && IsDescent(genesis, cur, down))
      && HeightAbove(pfork) <= t.nHeight + 1 && Below(t, HeightAbove(pfork)) == pfork
      && IsBranch(genesis, t, HeightAbove(pfork), up)
    }

    /** The scratch view, asked for its best block. */
    method OpenScratch() returns (view: ViewCache, cur: BlockIndex?)
      requires Inv()
      modifies tip.views
      ensures fresh(view) && view.Valid() && view.base == tip && view.views == tip.views + {view} && view.db == tip.db
      ensures CoinsKept() && cur == tip.Best() && Stands(rules, genesis, view, cur)
      ensures cur != null ==> view.pindexTip != null
      ensures HasUndo(cur)
    {
      hide UndoOk, HasUndo, BranchValid, Rooted, AncestorAt, NextOf, FlagsOk, PointersOk, ViewCache.Contents,
           ViewCache.Best;
      view := new ViewCache.Over(tip);
      cur := view.GetBestBlock();
    }

    twostate lemma CoinsStay()
      requires old(IndexOk()) && old(CoinsOk()) && IndexOk() && index == old(index)
      requires CoinsKept() && UndoKept()
      ensures CoinsOk()
    {
    }

    lemma StandsValid(view: ViewCache, t: BlockIndex)
      requires IndexOk() && t in index && view.Valid() && Stands(rules, genesis, view, t)
      ensures BranchValid(rules, genesis, t)
    {
    }

    /** Both branches, in the scratch view. */
    method Reorganise(view: ViewCache, cur: BlockIndex?, pindexNew: BlockIndex, io: ChainIo)
      returns (r: ConnectResult, failed: BlockIndex?, pfork: BlockIndex?, down: seq<BlockIndex>, up: seq<BlockIndex>)
      requires Tree() && UndoOk() && pindexNew in index && (cur != null ==> cur in index) && HasUndo(cur)
      requires view.Valid() && Stands(rules, genesis, view, cur) && (cur != null ==> view.pindexTip != null)
      modifies view.views, index`undo, index`fScriptsValid
      ensures view.BelowKept() && UndoOk() && UndoKept()
      ensures BlocksOk(io, cur, pindexNew) ==> !r.IoError?
      ensures r.Rejected? ==> failed != null && failed in index && IsAncestor(failed, pindexNew, genesis)
                              && !OnBranch(failed, cur) && !BranchValid(rules, genesis, failed)
                              && (failed.pprev != null ==> BranchValid(rules, genesis, failed.pprev))
      ensures r.Connected? ==>
                && Stands(rules, genesis, view, pindexNew) && HasUndo(pindexNew) && view.pindexTip != null
                && IsPlan(cur, pfork, pindexNew, down, up)
    {
      hide UndoOk, HasUndo, BranchValid, Rooted, AncestorAt, BlocksOk, NextOf, Stands, ViewCache.Contents,
           ViewCache.Best;
      r, failed, pfork, down, up := IoError, null, null, [], [];
      if cur != null {
        var ok;
        ok, pfork, down := LeaveBranch(view, cur, pindexNew, io);
        if !ok {
          return;
        }
      }
      r, failed, up := JoinBranch(view, cur, pfork, pindexNew, io);
    }

    /** SetBestChain up to the flush, in a scratch view over pcoinsTip. Outside that view only undo records
        change. */
    method Prepare(pindexNew: BlockIndex, io: ChainIo)
      returns (view: ViewCache, r: ConnectResult, failed: BlockIndex?, pfork: BlockIndex?,
               down: seq<BlockIndex>, up: seq<BlockIndex>)
      requires Inv() && pindexNew in index
      modifies index`undo, index`fScriptsValid, tip.views
      ensures fresh(view) && view.Valid() && view.base == tip && view.views == tip.views + {view} && view.db == tip.db
      ensures Inv() && CoinsKept()
      ensures r.Connected? ==> BranchValid(rules, genesis, pindexNew)
      ensures BlocksOk(io, tip.Best(), pindexNew) ==> !r.IoError?
      ensures r.Rejected? ==> failed != null && failed in index && IsAncestor(failed, pindexNew, genesis)
                              && !OnBranch(failed, tip.Best()) && !BranchValid(rules, genesis, failed)
                              && (failed.pprev != null ==> BranchValid(rules, genesis, failed.pprev))
      ensures r.Connected? ==>
                && Stands(rules, genesis, view, pindexNew) && HasUndo(pindexNew) && view.pindexTip != null
                && IsPlan(tip.Best(), pfork, pindexNew, down, up)
    {
      hide UndoOk, HasUndo, BranchValid, Rooted, AncestorAt, BlocksOk, NextOf, Stands, FlagsOk, CoinsOk, PnextOk,
           ViewCache.Contents, ViewCache.Best, IsAncestor, IsPlan;
      TipIndexed();
      var cur;
      view, cur := OpenScratch();
      r, failed, pfork, down, up := Reorganise(view, cur, pindexNew, io);
      CoinsStay();
      if r.Connected? {
        StandsValid(view, pindexNew);
      }
    }

    lemma TipIndexed()
      requires IndexOk() && CoinsOk()
      ensures tip.Best() != null ==> tip.Best() in index
    {
    }

    /** The one flush that makes a reorganisation visible. */
    method MoveCoins(view: ViewCache, ghost t: BlockIndex)
      requires IndexOk() && t in index
      requires view.Valid() && view.base == tip && view.views == tip.views + {view} && view.db == tip.db
      requires Stands(rules, genesis, view, t) && view.pindexTip != null
      modifies view.views, view.db
      ensures Stands(rules, genesis, tip, t) && tip.pindexTip == t && tip.Best() == t
    {
      hide BranchValid, Replay, Rooted;
      assert view.Best() == view.pindexTip;
      var ok := view.Flush(true);
      assert ok;
    }

    method Publish(view: ViewCache, ghost t: BlockIndex, io: ChainIo) returns (ok: bool)
      requires IndexOk() && t in index
      requires view.Valid() && view.base == tip && view.views == tip.views + {view} && view.db == tip.db
      requires Stands(rules, genesis, view, t) && view.pindexTip != null
      modifies view.views, view.db
      ensures ok <==> FlushOk(io)
      ensures Stands(rules, genesis, tip, t) && tip.Best() == t
    {
      hide BranchValid, Replay, Rooted, ViewCache.Contents, ViewCache.Best;
      MoveCoins(view, t);
      ok := true;
      if io.flushTip {
        if !io.diskSpaceOk {
          return false;
        }
        ok := tip.Flush(io.dbWriteOk);
      }
    }

    /** Blocks of a valid branch and their successors there. */
    lemma NextIsValid(t: BlockIndex, b: BlockIndex)
      requires IndexOk() && t in index && BranchValid(rules, genesis, t)
      requires b.nHeight < t.nHeight && IsAncestor(b, t, genesis)
      ensures var next := AncestorAt(t, genesis, b.nHeight + 1);
              next in index && next.pprev == b && BranchValid(rules, genesis, next)
    {
      hide AncestorAt, BranchValid;
      AncestorIndexed(t, b.nHeight + 1);
      AncestorParent(t, genesis, b.nHeight + 1);
      AncestorsValid(rules, genesis, t, b.nHeight + 1);
    }

    method Relink(ghost cur: BlockIndex?, ghost t: BlockIndex, ghost pfork: BlockIndex?, down: seq<BlockIndex>,
                  up: seq<BlockIndex>)
      requires Tree() && t in index && (cur != null ==> cur in index)
      requires IsPlan(cur, pfork, t, down, up) && PnextOk() && BranchValid(rules, genesis, t)
      modifies index`pnext
      ensures PnextOk()
      ensures forall b :: b in index ==> b.pnext == Relinked(cur, t, b, old(b.pnext))
    {
      hide Rooted, AncestorAt, BranchValid;
      ghost var lo := HeightAbove(pfork);
      UnlinkAll(cur, lo, down);
      LinkAll(t, lo, up);
      forall b | b in index
        ensures b.pnext == Relinked(cur, t, b, old(b.pnext))
        ensures Steps(cur, t, b) ==> b.pnext in index && b.pnext.pprev == b && BranchValid(rules, genesis, b.pnext)
      {
        StepsAbove(cur, t, pfork, b);
        StepsAbove(t, cur, pfork, b);
        if Steps(cur, t, b) {
          NextIsValid(t, b);
        }
      }
    }

    /** From the flush on: the coins move to pcoinsTip first, the links and the best pointer follow. A full disk or a
        refused database write in between leaves the coins switched and the links not. */
    method Commit(view: ViewCache, pindexNew: BlockIndex, io: ChainIo, ghost cur: BlockIndex?,
                  ghost pfork: BlockIndex?, down: seq<BlockIndex>, up: seq<BlockIndex>)
      returns (r: Outcome)
      requires Inv() && pindexNew in index && (cur != null ==> cur in index)
      requires view.Valid() && view.base == tip && view.views == tip.views + {view} && view.db == tip.db
      requires Stands(rules, genesis, view, pindexNew) && HasUndo(pindexNew) && view.pindexTip != null
      requires IsPlan(cur, pfork, pindexNew, down, up)
      modifies view.views, view.db, `best, `fbbhLast, index`pnext
      ensures Inv() && tip.Best() == pindexNew
      ensures r == if FlushOk(io) then Switched else Halted
      ensures r.Switched? ==> best == pindexNew && fbbhLast == null
      ensures r.Switched? ==>
                forall b :: b in index ==> b.pnext == Relinked(cur, pindexNew, b, old(b.pnext))
      ensures r.Halted? ==> PointersKept()
    {
      hide UndoOk, HasUndo, BranchValid, Rooted, AncestorAt, NextOf, FlagsOk, Stands, IndexOk, PnextOk, LinksTo, Linked,
           IsPlan, Relinked, CoinsKept, ViewCache.Contents, ViewCache.Best, ViewCache.Valid;
      StandsValid(view, pindexNew);
      var published := Publish(view, pindexNew, io);
      if !published {
        return Halted;
      }
      Relink(cur, pindexNew, pfork, down, up);
      best := pindexNew;
      fbbhLast := null;
      return Switched;
    }

    twostate lemma StepKept()
      requires old(Tree()) && Tree() && CoinsKept() && PointersKept()
      ensures InStep() == old(InStep())
    {
    }

    twostate lemma LinkedKept()
      requires old(Tree()) && Tree() && PointersKept()
      ensures Linked() == old(Linked()) && (InStep() <==> tip.Best() == best && Linked())
    {
    }

    /** After a switch the links are those of the new tip exactly when the untouched ones were those of the old. */
    twostate lemma SwitchedInStep(cur: BlockIndex?)
      requires old(Tree()) && Tree() && index == old(index) && (cur != null ==> cur in index)
      requires best != null && tip.Best() == best && fbbhLast == null
      requires forall b :: b in index ==> b.pnext == Relinked(cur, best, b, old(b.pnext))
      ensures InStep() <==> var t := best; old(LinksAway(cur, t))
    {
      hide Rooted, AncestorAt, Relinked, NextOf, Steps, ViewCache.Best;
      forall b | b in index
        ensures b.pnext == NextOf(genesis, best, b)
                <==> Steps(cur, best, b) || Steps(best, cur, b) || old(b.pnext) == NextOf(genesis, cur, b)
      {
        RelinkedRight(cur, best, b, old(b.pnext));
      }
    }

    lemma InStepLinksAway(t: BlockIndex)
      requires Tree() && InStep() && t in index
      ensures LinksAway(tip.Best(), t)
    {
    }

    /** Commit, and what it means for best pointer and links. */
    method Finish(view: ViewCache, pindexNew: BlockIndex, io: ChainIo, ghost cur: BlockIndex?,
                  ghost pfork: BlockIndex?, down: seq<BlockIndex>, up: seq<BlockIndex>)
      returns (r: Outcome)
      requires Inv() && pindexNew in index && (cur != null ==> cur in index)
      requires view.Valid() && view.base == tip && view.views == tip.views + {view} && view.db == tip.db
      requires Stands(rules, genesis, view, pindexNew) && HasUndo(pindexNew) && view.pindexTip != null
      requires IsPlan(cur, pfork, pindexNew, down, up)
      modifies view.views, view.db, `best, `fbbhLast, index`pnext
      ensures Inv() && tip.Best() == pindexNew
      ensures r == if FlushOk(io) then Switched else Halted
      ensures r.Switched? ==> best == pindexNew && fbbhLast == null
      ensures r.Switched? ==>
                forall b :: b in index ==> b.pnext == Relinked(cur, pindexNew, b, old(b.pnext))
      ensures r.Switched? ==> (InStep() <==> old(LinksAway(cur, pindexNew)))
      ensures r.Halted? ==> PointersKept() && (InStep() <==> pindexNew == best && old(Linked()))
    {
      hide UndoOk, HasUndo, BranchValid, Rooted, AncestorAt, NextOf, FlagsOk, Stands, IndexOk, PointersOk, CoinsOk,
           IsPlan, Relinked, LinksAway, Linked, InStep, ViewCache.Contents, ViewCache.Best, ViewCache.Valid;
      r := Commit(view, pindexNew, io, cur, pfork, down, up);
      if r.Switched? {
        SwitchedInStep(cur);
      } else {
        LinkedKept();
      }
    }

    /** Makes pindexNew the best block of the coins, or leaves them as they were. While the blocks of the two branches
        can be read and written, it gets past every check exactly when every block from genesis to pindexNew obeys
        the rules, and the flush then decides. Links and best pointer follow, except in the Halted case. A node in step
        stays in step through every other outcome; one that is not gets back exactly when the links off the two
        branches are right. */
    method SetBestChain(pindexNew: BlockIndex, io: ChainIo) returns (r: Outcome)
      requires Inv() && pindexNew in index
      modifies this, index, tip.views, tip.db
      ensures Inv() && index == old(index)
      ensures !r.Invalid? ==> valid == old(valid) && NoneFound()
      ensures r.Switched? ==> best == pindexNew && tip.Best() == pindexNew && fbbhLast == null
      ensures r.Switched? ==>
                forall b :: b in index ==> b.pnext == Relinked(old(tip.Best()), pindexNew, b, old(b.pnext))
      ensures r.Switched? ==> (InStep() <==> old(LinksAway(tip.Best(), pindexNew)))
      ensures !r.Switched? ==> PointersKept()
      ensures r.Invalid? || r.IoFailed? ==> CoinsKept() && InStep() == old(InStep())
      ensures r.Invalid? ==> exists b :: b in index && IsAncestor(b, pindexNew, genesis)
                                         && !OnBranch(b, old(tip.Best())) && !BranchValid(rules, genesis, b)
                                         && (b.pprev != null ==> BranchValid(rules, genesis, b.pprev))
                                         && valid == old(valid) - {b} && b.fFailedValid
      ensures r.Invalid? ==> !BranchValid(rules, genesis, pindexNew)
      ensures r.IoFailed? ==> !BlocksOk(io, old(tip.Best()), pindexNew)
      ensures r.Halted? ==> tip.Best() == pindexNew && !FlushOk(io)
                            && (InStep() <==> pindexNew == best && old(Linked()))
      ensures BlocksOk(io, old(tip.Best()), pindexNew) ==>
                r == if !BranchValid(rules, genesis, pindexNew) then Invalid
                     else if FlushOk(io) then Switched else Halted
      ensures old(InStep()) && !r.Halted? ==> InStep()
    {
      hide UndoOk, HasUndo, Rooted, AncestorAt, NextOf, FlagsOk, Stands, IsPlan, PointersOk, Relinked, LinksTo,
           BlocksOk, BranchValid, CoinsOk, LinksAway, OnBranch, IsAncestor, Linked, InStep, ViewCache.Valid,
           ViewCache.Contents, ViewCache.Best;
      TipIndexed();
      if InStep() {
        InStepLinksAway(pindexNew);
      }
      ghost var cur := tip.Best();
      var view, c, failed, pfork, down, up := Prepare(pindexNew, io);
      if c.IoError? {
        StepKept();
        return IoFailed;
      }
      if c.Rejected? {
        AncestorsValidOrNot(pindexNew, failed);
        Refuse(failed);
        StepKept();
        return Invalid;
      }
      r := Finish(view, pindexNew, io, cur, pfork, down, up);
    }

    lemma AncestorsValidOrNot(b: BlockIndex, a: BlockIndex)
      requires Rooted(b, genesis) && IsAncestor(a, b, genesis) && !BranchValid(rules, genesis, a)
      ensures !BranchValid(rules, genesis, b)
    {
      if BranchValid(rules, genesis, b) {
        AncestorsValid(rules, genesis, b, a.nHeight);
      }
    }

    // ---------- ConnectBestBlock

    /** No member of setBlockIndexValid sorts above b. */
    ghost predicate IsTop(b: BlockIndex, s: set<BlockIndex>) {
      b in s && forall a :: a in s && a != b ==> WorkLess(a, b)
    }

    /** The reverse begin of setBlockIndexValid. */
    method TopOf(s: set<BlockIndex>) returns (b: BlockIndex)
      requires s != {}
      requires forall a, c :: a in s && c in s && a.hash == c.hash ==> a == c
      ensures IsTop(b, s)
    {
      b :| b in s;
      var rest := s - {b};
      while rest != {}
        invariant rest <= s && IsTop(b, s - rest)
        decreases rest
      {
        var a :| a in rest;
        ghost var seen := s - rest;
        rest := rest - {a};
        assert s - rest == seen + {a};
        if WorkLess(b, a) {
          b := a;
        }
      }
      assert s - {} == s;
    }

    /** No member of setBlockIndexValid has more work than the best block. */
    ghost predicate BestIsHeaviest()
      reads `best, `valid
    {
      forall b :: b in valid ==> best != null && b.nChainWork <= best.nChainWork
    }

    /** Then no block whose branch obeys the rules has more work either. */
    lemma HeaviestOfAll()
      requires Inv() && BestIsHeaviest()
      ensures forall b :: b in index && BranchValid(rules, genesis, b) ==>
                best != null && b.nChainWork <= best.nChainWork
    {
    }

    /** Best work moves up or stays. */
    twostate predicate WorkClimbs()
      reads `best
    {
      best == old(best) || (best != null && (old(best) == null || best.nChainWork > old(best).nChainWork))
    }

    lemma TopIsHeaviest(top: BlockIndex)
      requires IsTop(top, valid) && best != null && top.nChainWork <= best.nChainWork
      ensures BestIsHeaviest()
    {
    }

    /** Marks the descendants of a failed block, from `from` down to but not including it. */
    method MarkDescendants(from: BlockIndex, bad: BlockIndex)
      requires Inv() && from in valid && bad in index && bad.Failed()
      requires IsAncestor(bad, from, genesis)
      modifies `valid, index`fFailedChild
      ensures Inv() && valid < old(valid)
    {
      hide BranchValid, ViewCache.Contents, ViewCache.Best, Stands, AncestorAt, Rooted;
      var pindexFailed: BlockIndex := from;
      AncestorSelf(from);
      while pindexFailed != bad
        invariant FlagsOk() && bad.Failed() && valid <= old(valid)
        invariant pindexFailed in index && bad.nHeight <= pindexFailed.nHeight
        invariant AncestorAt(from, genesis, pindexFailed.nHeight) == pindexFailed
        invariant pindexFailed.nHeight <= from.nHeight
        invariant pindexFailed != from ==> from !in valid
        decreases pindexFailed.nHeight
      {
        AncestorTransitive(from, genesis, pindexFailed.nHeight, bad.nHeight);
        AncestorsValidOrNot(pindexFailed, bad);
        AncestorParent(from, genesis, pindexFailed.nHeight);
        pindexFailed.fFailedChild := true;
        valid := valid - {pindexFailed};
        assert ParentIn(pindexFailed, index);
        pindexFailed := pindexFailed.pprev;
      }
    }

    /** A block with an active successor lies on a valid branch, so neither it nor any ancestor is marked failed. */
    lemma LinkedIsSound(stop: BlockIndex, b: BlockIndex)
      requires Inv() && stop in index && stop.pnext != null && b in index && IsAncestor(b, stop, genesis)
      ensures !b.Failed()
    {
      hide ViewCache.Contents, ViewCache.Best, Stands, AncestorAt;
      AncestorsValid(rules, genesis, stop, b.nHeight);
    }

    predicate MoreWork(b: BlockIndex)
      reads `best
    {
      best == null || b.nChainWork > best.nChainWork
    }

    /** The walk from a candidate ends at b: nothing is left below, or an active successor says the rest is active. */
    ghost predicate StopsAt(b: BlockIndex)
      reads b`pnext
    {
      b.pprev == null || b.pnext != null
    }

    /** Nothing below the end of the walk is marked failed. */
    lemma NoneFailed(top: BlockIndex, stop: BlockIndex)
      requires Inv() && top in index && stop in index && IsAncestor(stop, top, genesis)
      requires StopsAt(stop) && !stop.Failed()
      ensures forall b :: b in index && IsAncestor(b, top, genesis) && b.nHeight <= stop.nHeight ==> !b.Failed()
    {
      hide AncestorAt, UndoOk, FlagsOk, CoinsOk, PointersOk;
      forall b | b in index && IsAncestor(b, top, genesis) && b.nHeight < stop.nHeight ensures !b.Failed() {
        AncestorTransitive(top, genesis, stop.nHeight, b.nHeight);
        LinkedIsSound(stop, b);
      }
    }

    /** With exact links the walk passes every block with more work than the best block. */
    lemma NoneMissed(top: BlockIndex, stop: BlockIndex)
      requires Tree() && LinksTo(best) && top in index && stop in index
      requires StopsAt(stop) && IsAncestor(stop, top, genesis)
      ensures forall b :: b in index && IsAncestor(b, top, genesis) && MoreWork(b) ==> b.nHeight >= stop.nHeight
    {
      hide AncestorAt;
      forall b | b in index && IsAncestor(b, top, genesis) && b.nHeight < stop.nHeight ensures !MoreWork(b) {
        assert stop.pnext == NextOf(genesis, best, stop) != null;
        AncestorTransitive(top, genesis, stop.nHeight, b.nHeight);
        AncestorTransitive(best, genesis, stop.nHeight, b.nHeight);
        WorkGrows(best, genesis, b.nHeight);
      }
    }

    /** Walks from the candidate towards the active chain. Either it meets a failed block first, or no ancestor is
        failed and the blocks it passes that have more work than the best block are collected, candidate first. */
    method CheckAncestry(top: BlockIndex)
      returns (bad: BlockIndex?, vAttach: seq<BlockIndex>, ghost stop: BlockIndex)
      requires Inv() && top in index
      ensures stop in index && IsAncestor(stop, top, genesis)
      ensures forall b :: b in index && IsAncestor(b, top, genesis) && b.nHeight > stop.nHeight ==>
                !b.Failed() && !StopsAt(b)
      ensures if stop.Failed() then bad == stop else bad == null && StopsAt(stop)
      ensures bad == null ==> forall b :: b in index && IsAncestor(b, top, genesis) ==> !b.Failed()
      ensures bad == null ==> IsDescent(genesis, top, vAttach)
      ensures bad == null ==>
                forall b :: b in index && IsAncestor(b, top, genesis) ==>
                  (b in vAttach <==> MoreWork(b) && b.nHeight >= stop.nHeight)
      ensures bad == null && LinksTo(best) ==>
                forall b :: b in index && IsAncestor(b, top, genesis) ==> (b in vAttach <==> MoreWork(b))
    {
      hide AncestorAt, NextOf, LinksTo, UndoOk, FlagsOk, CoinsOk, PointersOk, Rooted, BlockIndex.Failed;
      var pindexTest: BlockIndex := top;
      vAttach := [];
      ghost var seen: nat := 0;
      AncestorSelf(top);
      while true
        invariant seen <= top.nHeight && pindexTest in index
        invariant pindexTest == AncestorAt(top, genesis, top.nHeight - seen)
        invariant forall b :: b in index && IsAncestor(b, top, genesis) && b.nHeight > pindexTest.nHeight ==>
                    !b.Failed() && !StopsAt(b) && (b in vAttach <==> MoreWork(b))
        invariant |vAttach| <= seen && (|vAttach| < seen ==> !MoreWork(pindexTest))
        invariant IsDescent(genesis, top, vAttach)
        decreases pindexTest.nHeight
      {
        if pindexTest.Failed() {
          return pindexTest, vAttach, pindexTest;
        }
        if best == null || pindexTest.nChainWork > best.nChainWork {
          vAttach := vAttach + [pindexTest];
        }
        if pindexTest.pprev == null || pindexTest.pnext != null {
          NoneFailed(top, pindexTest);
          if LinksTo(best) {
            NoneMissed(top, pindexTest);
          }
          return null, vAttach, pindexTest;
        }
        WalkDown(top, pindexTest);
        seen := seen + 1;
        pindexTest := pindexTest.pprev;
      }
    }

    lemma WalkDown(top: BlockIndex, b: BlockIndex)
      requires Tree() && top in index && b in index && b.pprev != null && IsAncestor(b, top, genesis)
      ensures b.pprev in index && b.nHeight > 0 && b.pprev == AncestorAt(top, genesis, b.nHeight - 1)
      ensures b.pprev.nHeight == b.nHeight - 1 && b.pprev.nChainWork < b.nChainWork
    {
      assert ParentIn(b, index);
      AncestorParent(top, genesis, b.nHeight);
    }

    /** What a candidate's branch looks like when it is tried: none of its blocks has been struck off. */
    ghost predicate Untried(top: BlockIndex)
      requires IndexOk() && top in index
      reads `index, `valid
    {
      forall b :: b in index && IsAncestor(b, top, genesis) ==> b in valid
    }

    lemma CandidatesUnmarked()
      requires Inv()
      ensures valid <= index && forall b :: b in valid ==> !b.fFailedValid
    {
    }

    /** A candidate that was struck off has a branch that breaks a rule. */
    lemma StruckOff(candidates: set<BlockIndex>)
      requires Inv() && valid < candidates <= index
      ensures exists b :: b in candidates && !BranchValid(rules, genesis, b)
    {
      hide BranchValid;
      assert exists b :: b in candidates && b !in valid && b.Failed();
    }

    /** One switch, seen from the candidates: without disk trouble a refusal strikes one off. */
    method TrySwitch(b: BlockIndex, io: ChainIo) returns (ok: bool)
      requires Inv() && b in index && Untried(b)
      modifies this, index, tip.views, tip.db
      ensures Inv() && index == old(index)
      ensures ok ==> best == b && valid == old(valid) && NoneFound()
      ensures !ok ==> best == old(best) && valid <= old(valid)
      ensures !ok && AllBlocksOk(io) && FlushOk(io) ==> valid < old(valid) && SomeFound()
      ensures old(InStep()) && (ok || FlushOk(io)) ==> InStep()
    {
      hide UndoOk, HasUndo, FlagsOk, LinksTo, CoinsOk, PnextOk, Rooted, AncestorAt, BranchValid, Relinked, LinksAway,
           ViewCache.Contents, ViewCache.Best;
      TipIndexed();
      CandidatesUnmarked();
      var r := SetBestChain(b, io);
      ok := r.Switched?;
    }

    /** Attached blocks lie on one branch, each the parent of the next. */
    ghost predicate AttachOrder(top: BlockIndex, up: seq<BlockIndex>)
      requires Rooted(top, genesis)
    {
      && 0 < |up| <= top.nHeight + 1
      && forall i :: 0 <= i < |up| ==> up[i] == AncestorAt(top, genesis, top.nHeight - (|up| - 1 - i))
    }

    lemma UntriedBelow(top: BlockIndex, h: nat)
      requires IndexOk() && top in index && h <= top.nHeight && Untried(top)
      ensures AncestorAt(top, genesis, h) in index && Untried(AncestorAt(top, genesis, h))
    {
      AncestorIndexed(top, h);
      forall b | b in index && IsAncestor(b, AncestorAt(top, genesis, h), genesis) ensures b in valid {
        AncestorTransitive(top, genesis, h, b.nHeight);
      }
    }

    /** Switches to each attached block in turn, lowest first. */
    method Attach(ghost top: BlockIndex, up: seq<BlockIndex>, io: ChainIo) returns (ok: bool)
      requires Inv() && top in index && AttachOrder(top, up) && Untried(top)
      requires forall i :: 0 <= i < |up| ==> MoreWork(up[i])
      modifies this, index, tip.views, tip.db
      ensures Inv() && index == old(index) && WorkClimbs() && valid <= old(valid)
      ensures ok ==> best == top && valid == old(valid) && NoneFound()
      ensures !ok && AllBlocksOk(io) && FlushOk(io) ==> valid < old(valid) && SomeFound()
      ensures old(InStep()) && (ok || FlushOk(io)) ==> InStep()
    {
      hide UndoOk, HasUndo, FlagsOk, LinksTo, Stands, CoinsOk, PnextOk, Rooted, AncestorAt, BranchValid,
           ViewCache.Contents, ViewCache.Best, IsAncestor, OnBranch, Linked;
      AncestorSelf(top);
      for k := 0 to |up|
        invariant Inv() && index == old(index) && valid == old(valid) && NoneFound()
        invariant best == if k == 0 then old(best) else up[k - 1]
        invariant old(InStep()) ==> InStep()
      {
        UntriedBelow(top, top.nHeight - (|up| - 1 - k));
        ok := TrySwitch(up[k], io);
        if !ok {
          return;
        }
      }
      return true;
    }

    method Upwards(ghost top: BlockIndex, vAttach: seq<BlockIndex>) returns (up: seq<BlockIndex>)
      requires Rooted(top, genesis) && vAttach != []
      requires IsDescent(genesis, top, vAttach)
      ensures AttachOrder(top, up) && |up| == |vAttach|
      ensures forall i :: 0 <= i < |up| ==> up[i] in vAttach
    {
      up := Reverse(vAttach);
    }

    lemma AllUntried(top: BlockIndex)
      requires Inv() && top in index
      requires forall b :: b in index && IsAncestor(b, top, genesis) ==> !b.Failed()
      ensures Untried(top)
    {
    }

    /** One pass over the best candidate: strike off a failed branch, or switch to it. */
    method TryCandidate(top: BlockIndex, io: ChainIo) returns (again: bool, ok: bool)
      requires Inv() && IsTop(top, valid)
      modifies this, index, tip.views, tip.db
      ensures Inv() && index == old(index) && WorkClimbs()
      ensures again ==> best == old(best) && valid < old(valid) && NoneFound()
      ensures !again && ok ==> BestIsHeaviest() && valid == old(valid) && NoneFound()
      ensures !again && ok && best != old(best) ==> best == top
      ensures !again && !ok ==> valid <= old(valid)
      ensures !again && !ok && AllBlocksOk(io) && FlushOk(io) ==> valid < old(valid) && SomeFound()
      ensures old(InStep()) && (again || ok || FlushOk(io)) ==> InStep()
    {
      hide UndoOk, HasUndo, Stands, CoinsOk, PnextOk, Rooted, AncestorAt, NextOf, ViewCache.Contents, ViewCache.Best,
           BranchValid, LinksTo, OnBranch, Linked;
      ghost var stop;
      var bad, vAttach;
      bad, vAttach, stop := CheckAncestry(top);
      if bad != null {
        MarkDescendants(top, bad);
        return true, true;
      }
      AncestorSelf(top);
      if vAttach == [] {
        TopIsHeaviest(top);
        return false, true;
      }
      AllUntried(top);
      var up := Upwards(top, vAttach);
      forall i | 0 <= i < |up| ensures MoreWork(up[i]) {
        AncestorIndexed(top, top.nHeight - (|up| - 1 - i));
      }
      ok := Attach(top, up, io);
      again := false;
      if ok {
        TopIsHeaviest(top);
      }
    }

    lemma BestIsCandidate()
      requires Inv()
      ensures best != null ==> best in valid
    {
    }

    /** Repeats until the best candidate is reached or already beaten. True means that no member of setBlockIndexValid,
        hence no block whose branch obeys the rules, has more work than the best block; a new best block is chosen by
        work and then by the smaller hash. Without disk trouble the answer is false exactly when a block is found
        invalid in this call, which strikes a candidate off, so retrying ends. */
    method ConnectBestBlock(io: ChainIo) returns (ok: bool)
      requires Inv()
      modifies this, index, tip.views, tip.db
      ensures Inv() && index == old(index) && WorkClimbs() && valid <= old(valid)
      ensures ok ==> BestIsHeaviest() && NoneFound()
      ensures ok && best != old(best) ==>
                best in valid && forall b :: b in valid && b != best ==>
                  b.nChainWork < best.nChainWork || (b.nChainWork == best.nChainWork && b.hash > best.hash)
      ensures !ok && AllBlocksOk(io) && FlushOk(io) ==> valid < old(valid) && SomeFound()
      ensures old(best != null && BestIsHeaviest()) ==> ok && valid == old(valid) && CoinsKept() && PointersKept()
      ensures old(InStep()) && (ok || FlushOk(io)) ==> InStep()
    {
      hide UndoOk, HasUndo, LinksTo, Stands, CoinsOk, PnextOk, Rooted, AncestorAt, NextOf, ViewCache.Contents,
           ViewCache.Best, BranchValid, Linked;
      BestIsCandidate();
      ghost var beaten := best == null || !BestIsHeaviest();
      while true
        invariant Inv() && index == old(index) && best == old(best) && valid <= old(valid) && NoneFound()
        invariant old(InStep()) ==> InStep()
        invariant !beaten ==> valid == old(valid) && CoinsKept() && PointersKept()
        decreases valid
      {
        if valid == {} {
          return true;
        }
        var pindexNewBest := TopOf(valid);
        if best != null && (pindexNewBest == best || pindexNewBest.nChainWork == best.nChainWork) {
          TopIsHeaviest(pindexNewBest);
          return true;
        }
        var again;
        again, ok := TryCandidate(pindexNewBest, io);
        if !again {
          return;
        }
      }
    }

    // ---------- growing the index

    lemma NewBlockOffBranch(b: BlockIndex, t: BlockIndex)
      requires IndexOk() && t in index && b !in index
      ensures !IsAncestor(b, t, genesis) && NextOf(genesis, t, b) == null
    {
      if IsAncestor(b, t, genesis) {
        AncestorIndexed(t, b.nHeight);
      }
    }

    /** Indexes a new block whose parent is known. */
    method Insert(b: BlockIndex)
      requires Inv() && b !in index && Rooted(b, genesis)
      requires forall a :: a in index ==> a.hash != b.hash
      requires b.pprev != null ==> b.pprev in index
      requires b.pnext == null && b.undo == None && !b.Failed()
      modifies `index, `valid
      ensures Inv() && index == old(index) + {b} && valid == old(valid) + {b}
      ensures InStep() == old(InStep())
    {
      hide ViewCache.Contents, ViewCache.Best, ViewCache.Valid, Stands, BranchValid, AncestorAt, IsAncestor, Rooted,
           UndoOf;
      if best != null {
        NewBlockOffBranch(b, best);
      }
      if tip.Best() != null {
        NewBlockOffBranch(b, tip.Best());
      }
      index := index + {b};
      valid := valid + {b};
      forall a {:trigger ParentIn(a, index)} | a in index ensures ParentIn(a, index) {
        assert a != b ==> ParentIn(a, old(index));
      }
    }

    /** A block with this hash is indexed already. */
    predicate Known(hash: Hash)
      reads `index
    {
      exists a :: a in index && a.hash == hash
    }

    /** AddToBlockIndex, after which the best block is heaviest again unless it reports failure. A known block changes
        nothing. A new one joins the index and the candidates; what happens then is up to ConnectBestBlock, unless the
        index cannot be written. Without disk trouble a new block is refused exactly when some block is found invalid,
        never while all unmarked blocks have valid branches. */
    method AddToBlockIndex(b: BlockIndex, indexWriteOk: bool, io: ChainIo) returns (ok: bool)
      requires Inv() && b !in index && Rooted(b, genesis)
      requires b.pprev != null ==> b.pprev in index
      requires b.pnext == null && b.undo == None && !b.Failed()
      modifies this, index, b, tip.views, tip.db
      ensures Inv() && WorkClimbs()
      ensures index == if old(Known(b.hash)) then old(index) else old(index) + {b}
      ensures old(Known(b.hash)) ==> !ok && valid == old(valid)
      ensures !old(Known(b.hash)) && !indexWriteOk ==> !ok && valid == old(valid) + {b}
      ensures old(Known(b.hash)) || !indexWriteOk ==>
                best == old(best) && CoinsKept() && forall x :: x in index ==> x.Failed() == old(x.Failed())
      ensures ok ==> BestIsHeaviest() && valid <= old(valid) + {b}
                     && forall x :: x in index ==> x.fFailedValid == old(x.fFailedValid)
      ensures !old(Known(b.hash)) && indexWriteOk && AllBlocksOk(io) && FlushOk(io) && !ok ==>
                && valid < old(valid) + {b}
                && (exists x :: x in index && x.fFailedValid && !old(x.fFailedValid))
                && (exists x :: x in old(valid) + {b} && !BranchValid(rules, genesis, x))
      ensures old(InStep()) && (ok || FlushOk(io)) ==> InStep()
    {
      hide UndoOk, HasUndo, FlagsOk, LinksTo, Stands, CoinsOk, PnextOk, Rooted, AncestorAt, NextOf, BranchValid,
           ViewCache.Contents, ViewCache.Best, Linked;
      if Known(b.hash) {
        return false;
      }
      Insert(b);
      if !indexWriteOk {
        return false;
      }
      CandidatesUnmarked();
      ghost var candidates := valid;
      ok := ConnectBestBlock(io);
      if valid < candidates {
        StruckOff(candidates);
      }
    }

    // ---------- reading the active chain

    /** A block is on the active chain exactly when it has an active successor or is the best block. With links out of
        step the answer still implies a branch that obeys the rules. */
    method IsInMainChain(b: BlockIndex) returns (r: bool)
      requires Inv() && b in index
      ensures LinksTo(best) ==> (r <==> OnBranch(b, best))
      ensures r ==> BranchValid(rules, genesis, b)
      ensures r <==> b.pnext != null || b == best
    {
      hide ViewCache.Contents, ViewCache.Best, Stands, CoinsOk, UndoOk, FlagsOk;
      if best != null {
        AncestorSelf(best);
      }
      r := b.pnext != null || b == best;
    }

    function Distance(a: int, b: int): nat {
      if a < b then b - a else a - b
    }

    /** The best block's ancestor at a height, if there is one. */
    ghost function ActiveAt(h: nat): BlockIndex?
      requires Tree()
      reads `index, `best
    {
      if best != null && h <= best.nHeight then AncestorAt(best, genesis, h) else null
    }

    /** Starts at genesis, at the best block or at the last answer, whichever the source prefers, and walks pprev or
        pnext to the height asked for. Null is the walk falling off the end of the links, where the source follows a
        null pointer. */
    method FindBlockByHeight(nHeight: nat) returns (b: BlockIndex?)
      requires Inv() && best != null
      modifies `fbbhLast
      ensures Inv() && (old(InStep()) ==> InStep())
      ensures old(Linked()) ==> Linked() && b == ActiveAt(nHeight)
      ensures b != null ==> b in index && b.nHeight == nHeight && BranchValid(rules, genesis, b) && fbbhLast == b
      ensures b == null ==> fbbhLast == old(fbbhLast)
    {
      hide ViewCache.Contents, ViewCache.Best, Stands, BranchValid, UndoOk, HasUndo, FlagsOk, LinksTo, NextOf,
           CoinsOk, AncestorAt, Rooted;
      RootIsGenesis(best, genesis);
      AncestorIndexed(best, 0);
      AncestorsValid(rules, genesis, best, 0);
      AncestorSelf(best);
      var pblockindex: BlockIndex? := if nHeight < best.nHeight / 2 then genesis else best;
      if fbbhLast != null && Distance(nHeight, pblockindex.nHeight) > Distance(nHeight, fbbhLast.nHeight) {
        pblockindex := fbbhLast;
      }
      while pblockindex.nHeight > nHeight
        invariant fbbhLast == old(fbbhLast)
        invariant pblockindex != null && pblockindex in index && BranchValid(rules, genesis, pblockindex)
        invariant Linked() ==> IsAncestor(pblockindex, best, genesis)
        decreases pblockindex.nHeight
      {
        StepDown(pblockindex);
        pblockindex := pblockindex.pprev;
      }
      while pblockindex.nHeight < nHeight
        invariant fbbhLast == old(fbbhLast)
        invariant pblockindex != null && pblockindex in index && BranchValid(rules, genesis, pblockindex)
        invariant Linked() ==> IsAncestor(pblockindex, best, genesis)
        invariant pblockindex.nHeight <= nHeight
        decreases nHeight - pblockindex.nHeight
      {
        StepUp(pblockindex);
        if pblockindex.pnext == null {
          return null;
        }
        pblockindex := pblockindex.pnext;
      }
      fbbhLast := pblockindex;
      return pblockindex;
    }

    lemma StepDown(b: BlockIndex)
      requires Tree() && b in index && b.nHeight > 0 && BranchValid(rules, genesis, b)
      ensures b.pprev != null && b.pprev.nHeight == b.nHeight - 1
      ensures b.pprev in index && BranchValid(rules, genesis, b.pprev)
      ensures OnBranch(b, best) ==> OnBranch(b.pprev, best)
    {
      assert ParentIn(b, index);
      if OnBranch(b, best) {
        AncestorParent(best, genesis, b.nHeight);
      }
    }

    lemma StepUp(b: BlockIndex)
      requires Tree() && PnextOk() && b in index
      ensures b.pnext != null ==>
                b.pnext in index && b.pnext.nHeight == b.nHeight + 1 && BranchValid(rules, genesis, b.pnext)
      ensures LinksTo(best) && OnBranch(b, best) ==>
                if b.nHeight < best.nHeight then b.pnext != null && OnBranch(b.pnext, best) else b.pnext == null
    {
      hide AncestorAt, BranchValid;
    }
  }

  /** CBlockIndexWorkComparator. */
  predicate WorkLess(pa: BlockIndex, pb: BlockIndex) {
    if pa.nChainWork > pb.nChainWork then false
    else if pa.nChainWork < pb.nChainWork then true
    else pa.hash > pb.hash
  }
}
