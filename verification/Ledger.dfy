/** What connecting and disconnecting a block do to the set of unspent coins, as functions on a map from txid to
    coins. A fully spent entry and an absent entry count as the same thing. */
module Ledger {
  import opened Basics
  import opened Transactions
  import opened CoinsRules

  type CoinMap = map<Hash, Coins>

  /** The coins of one transaction, absent and fully spent both read as EMPTY_COINS. */
  function At(m: CoinMap, id: Hash): Coins {
    if id in m && !m[id].IsPruned() then m[id] else EMPTY_COINS
  }

  ghost predicate Same(m1: CoinMap, m2: CoinMap) {
    forall id :: At(m1, id) == At(m2, id)
  }

  ghost predicate GoodMap(m: CoinMap) {
    forall id :: At(m, id) == EMPTY_COINS || Stored(At(m, id))
  }

  predicate Available(m: CoinMap, o: OutPoint) {
    o.hash in m && m[o.hash].IsAvailable(o.n)
  }

  predicate HaveInputs(m: CoinMap, vin: seq<TxIn>) {
    forall i :: 0 <= i < |vin| ==> Available(m, vin[i].prevout)
  }

  // ---------- applying a transaction

  /** Spends one output. The source asserts that it is available; where that would fire, nothing changes here. */
  function SpendOne(m: CoinMap, o: OutPoint): (CoinMap, TxUndo) {
    if Available(m, o)
    then (m[o.hash := SpentCoins(m[o.hash], o.n)], [SpendUndo(m[o.hash], o.n)])
    else (m, [])
  }

  function SpendInputs(m: CoinMap, vin: seq<TxIn>): (CoinMap, TxUndo) {
    if vin == [] then (m, [])
    else
      var (m1, undo1) := SpendInputs(m, vin[..|vin| - 1]);
      var (m2, undo2) := SpendOne(m1, vin[|vin| - 1].prevout);
      (m2, undo1 + undo2)
  }

  function UpdateCoins(m: CoinMap, tx: Tx, height: int): (CoinMap, TxUndo) {
    var (m1, undo) := if tx.IsCoinBase() then (m, []) else SpendInputs(m, tx.vin);
    (m1[tx.hash := FromTx(tx, height)], undo)
  }

  // ---------- taking a transaction back

  function RestoreOne(m: CoinMap, o: OutPoint, undo: TxInUndo): (CoinMap, bool) {
    var c := if o.hash in m then m[o.hash] else EMPTY_COINS;
    var (c', clean) := RestoredCoins(c, o.n, undo);
    (m[o.hash := c'], clean)
  }

  /** Last input first. */
  function RestoreInputs(m: CoinMap, vin: seq<TxIn>, undo: TxUndo): (CoinMap, bool)
    requires |vin| == |undo|
    decreases |vin|
  {
    if vin == [] then (m, true)
    else
      var (m1, clean1) := RestoreOne(m, vin[|vin| - 1].prevout, undo[|vin| - 1]);
      var (m2, clean2) := RestoreInputs(m1, vin[..|vin| - 1], undo[..|vin| - 1]);
      (m2, clean1 && clean2)
  }

  /** Empties the entry of a transaction being disconnected; clean when it stood there with all outputs unspent.
      A negative version is taken from the block. */
  function RemoveOutputs(m: CoinMap, tx: Tx, height: int): (CoinMap, bool) {
    var found := if tx.hash in m then m[tx.hash] else EMPTY_COINS;
    var outs := if tx.nVersion < 0 then found.(nVersion := tx.nVersion) else found;
    (m[tx.hash := EMPTY_COINS], tx.hash in m && outs == FromTx(tx, height))
  }

  /** Disconnects vtx[from..], last transaction first; None when the undo data does not fit. */
  function DisconnectTxs(m: CoinMap, vtx: seq<Tx>, undo: BlockUndo, height: int): Option<(CoinMap, bool)>
    requires |vtx| == 0 || |undo| + 1 == |vtx|
    decreases |vtx|
  {
    if vtx == [] then Some((m, true))
    else
      var last := |vtx| - 1;
      var tx := vtx[last];
      var (m1, clean1) := RemoveOutputs(m, tx, height);
      if last == 0 then Some((m1, clean1))
      else if |undo[last - 1]| != |tx.vin| then None
      else
        var (m2, clean2) := RestoreInputs(m1, tx.vin, undo[last - 1]);
        match DisconnectTxs(m2, vtx[..last], undo[..last - 1], height)
        case None => None
        case Some((m3, clean3)) => Some((m3, clean1 && clean2 && clean3))
  }

  /** DisconnectBlock's effect on the coins. */
  function DisconnectBlock(m: CoinMap, vtx: seq<Tx>, undo: BlockUndo, height: int): Option<(CoinMap, bool)> {
    if |undo| + 1 != |vtx| then None else DisconnectTxs(m, vtx, undo, height)
  }

  // ---------- reading through Same

  lemma AvailableAt(m: CoinMap, o: OutPoint)
    ensures Available(m, o) <==> At(m, o.hash).IsAvailable(o.n)
    ensures Available(m, o) ==> m[o.hash] == At(m, o.hash)
  {
  }

  lemma SameAvailable(m1: CoinMap, m2: CoinMap, o: OutPoint)
    requires Same(m1, m2)
    ensures Available(m1, o) <==> Available(m2, o)
    ensures Available(m1, o) ==> m1[o.hash] == m2[o.hash]
  {
    assert At(m1, o.hash) == At(m2, o.hash);
    AvailableAt(m1, o);
    AvailableAt(m2, o);
  }

  lemma SameUpdate(m1: CoinMap, m2: CoinMap, id: Hash, c1: Coins, c2: Coins)
    requires forall k :: k != id ==> At(m1, k) == At(m2, k)
    requires c1 == c2 || (c1.IsPruned() && c2.IsPruned())
    ensures Same(m1[id := c1], m2[id := c2])
  {
    var n1, n2 := m1[id := c1], m2[id := c2];
    forall k ensures At(n1, k) == At(n2, k) {
      if k != id {
        assert At(n1, k) == At(m1, k) && At(n2, k) == At(m2, k);
      }
    }
  }

  // ---------- spending

  lemma SpendOneFacts(m: CoinMap, o: OutPoint)
    requires GoodMap(m)
    ensures GoodMap(SpendOne(m, o).0)
    ensures forall id :: At(m, id) == EMPTY_COINS ==> At(SpendOne(m, o).0, id) == EMPTY_COINS
    ensures forall p: OutPoint :: p != o ==> (Available(SpendOne(m, o).0, p) <==> Available(m, p))
    ensures forall p: OutPoint :: p != o && Available(m, p) ==>
              Available(SpendOne(m, o).0, p) && SpendOne(m, o).0[p.hash].vout[p.n] == m[p.hash].vout[p.n]
  {
    if Available(m, o) {
      AvailableAt(m, o);
      assert Stored(At(m, o.hash));
      SpentStays(m[o.hash], o.n);
      var m1 := SpendOne(m, o).0;
      forall id ensures At(m1, id) == EMPTY_COINS || Stored(At(m1, id)) {
        assert id != o.hash ==> At(m1, id) == At(m, id);
      }
    }
  }

  lemma {:induction false} SpendInputsFacts(m: CoinMap, vin: seq<TxIn>)
    requires GoodMap(m)
    ensures GoodMap(SpendInputs(m, vin).0)
    ensures forall id :: At(m, id) == EMPTY_COINS ==> At(SpendInputs(m, vin).0, id) == EMPTY_COINS
    ensures forall p: OutPoint :: (forall i :: 0 <= i < |vin| ==> vin[i].prevout != p) ==>
              (Available(SpendInputs(m, vin).0, p) <==> Available(m, p))
    ensures forall p: OutPoint :: (forall i :: 0 <= i < |vin| ==> vin[i].prevout != p) && Available(m, p) ==>
              Available(SpendInputs(m, vin).0, p)
              && SpendInputs(m, vin).0[p.hash].vout[p.n] == m[p.hash].vout[p.n]
  {
    if vin != [] {
      var front, o := vin[..|vin| - 1], vin[|vin| - 1].prevout;
      SpendInputsFacts(m, front);
      SpendOneFacts(SpendInputs(m, front).0, o);
      forall p: OutPoint | forall i :: 0 <= i < |vin| ==> vin[i].prevout != p
        ensures Available(SpendInputs(m, vin).0, p) <==> Available(m, p)
        ensures Available(m, p) ==> Available(SpendInputs(m, vin).0, p)
                                    && SpendInputs(m, vin).0[p.hash].vout[p.n] == m[p.hash].vout[p.n]
      {
        assert forall i :: 0 <= i < |front| ==> front[i].prevout == vin[i].prevout;
        assert p != o;
      }
    }
  }

  /** When HaveInputs holds and no input repeats, no Spend in UpdateCoins is refused. */
  lemma {:induction false} NoSpendRefused(m: CoinMap, vin: seq<TxIn>, i: nat)
    requires GoodMap(m) && HaveInputs(m, vin) && DistinctInputs(vin) && i <= |vin|
    ensures |SpendInputs(m, vin[..i]).1| == i
    ensures i < |vin| ==> Available(SpendInputs(m, vin[..i]).0, vin[i].prevout)
  {
    SpendInputsFacts(m, vin[..i]);
    if i > 0 {
      NoSpendRefused(m, vin, i - 1);
      assert vin[..i][..i - 1] == vin[..i - 1];
    }
  }

  lemma {:induction false} SpendInputsSame(m1: CoinMap, m2: CoinMap, vin: seq<TxIn>)
    requires Same(m1, m2)
    ensures Same(SpendInputs(m1, vin).0, SpendInputs(m2, vin).0)
    ensures SpendInputs(m1, vin).1 == SpendInputs(m2, vin).1
  {
    if vin != [] {
      var front, o := vin[..|vin| - 1], vin[|vin| - 1].prevout;
      SpendInputsSame(m1, m2, front);
      var n1, n2 := SpendInputs(m1, front).0, SpendInputs(m2, front).0;
      SameAvailable(n1, n2, o);
      if Available(n1, o) {
        var c := SpentCoins(n1[o.hash], o.n);
        SameUpdate(n1, n2, o.hash, c, c);
      }
    }
  }

  lemma UpdateCoinsSame(m1: CoinMap, m2: CoinMap, tx: Tx, height: int)
    requires Same(m1, m2)
    ensures Same(UpdateCoins(m1, tx, height).0, UpdateCoins(m2, tx, height).0)
    ensures UpdateCoins(m1, tx, height).1 == UpdateCoins(m2, tx, height).1
  {
    SpendInputsSame(m1, m2, tx.vin);
    var n1 := if tx.IsCoinBase() then m1 else SpendInputs(m1, tx.vin).0;
    var n2 := if tx.IsCoinBase() then m2 else SpendInputs(m2, tx.vin).0;
    SameUpdate(n1, n2, tx.hash, FromTx(tx, height), FromTx(tx, height));
  }

  lemma FromTxStored(tx: Tx, height: int)
    requires WellFormed(tx) && 1 <= height < INT_LIMIT
    ensures Stored(FromTx(tx, height)) && !FromTx(tx, height).IsPruned()
  {
    PrefixInRange(tx.vout, 0);
    forall i | 0 <= i < |tx.vout| ensures !tx.vout[i].IsNull() {
      PrefixInRange(tx.vout, i);
    }
  }

  lemma UpdateCoinsGood(m: CoinMap, tx: Tx, height: int)
    requires GoodMap(m) && WellFormed(tx) && 1 <= height < INT_LIMIT
    ensures GoodMap(UpdateCoins(m, tx, height).0)
    ensures forall id :: id != tx.hash && At(m, id) == EMPTY_COINS ==>
              At(UpdateCoins(m, tx, height).0, id) == EMPTY_COINS
  {
    SpendInputsFacts(m, tx.vin);
    FromTxStored(tx, height);
    var m1 := if tx.IsCoinBase() then m else SpendInputs(m, tx.vin).0;
    var m2 := UpdateCoins(m, tx, height).0;
    forall id ensures id == tx.hash || At(m2, id) == At(m1, id) {
    }
    assert At(m2, tx.hash) == FromTx(tx, height);
  }

  // ---------- undo

  lemma RestoreOneUndoes(m: CoinMap, o: OutPoint, now: CoinMap)
    requires GoodMap(m) && Available(m, o)
    requires Same(now, SpendOne(m, o).0)
    ensures Same(RestoreOne(now, o, SpendOne(m, o).1[0]).0, m)
    ensures RestoreOne(now, o, SpendOne(m, o).1[0]).1
  {
    AvailableAt(m, o);
    var c := m[o.hash];
    assert Stored(At(m, o.hash));
    SpentStays(c, o.n);
    var spent := SpendOne(m, o).0;
    var here := if o.hash in now then now[o.hash] else EMPTY_COINS;
    assert At(now, o.hash) == At(spent, o.hash);
    RestoreAfterSpend(c, o.n, here);
    forall k | k != o.hash ensures At(now, k) == At(m, k) {
      assert At(now, k) == At(spent, k);
    }
    SameUpdate(now, m, o.hash, c, c);
    assert m[o.hash := c] == m;
  }

  lemma UndoSplits(m: CoinMap, vin: seq<TxIn>)
    requires vin != []
    requires var m1 := SpendInputs(m, vin[..|vin| - 1]).0;
             |SpendInputs(m, vin[..|vin| - 1]).1| == |vin| - 1 && Available(m1, vin[|vin| - 1].prevout)
    ensures var n := |vin| - 1;
            var (m1, front) := SpendInputs(m, vin[..n]);
            var undo := SpendInputs(m, vin).1;
            && SpendInputs(m, vin).0 == SpendOne(m1, vin[n].prevout).0 && |SpendOne(m1, vin[n].prevout).1| == 1
            && |undo| == n + 1 && undo[..n] == front && undo[n] == SpendOne(m1, vin[n].prevout).1[0]
  {
    hide Available, SpentCoins, SpendUndo;
  }

  lemma {:induction false} RestoreInputsUndoes(m: CoinMap, vin: seq<TxIn>, now: CoinMap)
    requires GoodMap(m) && HaveInputs(m, vin) && DistinctInputs(vin)
    requires Same(now, SpendInputs(m, vin).0)
    ensures |SpendInputs(m, vin).1| == |vin|
    ensures var (back, clean) := RestoreInputs(now, vin, SpendInputs(m, vin).1);
            clean && Same(back, m)
  {
    NoSpendRefused(m, vin, |vin|);
    assert vin[..|vin|] == vin;
    if vin != [] {
      var n := |vin| - 1;
      var front, o := vin[..n], vin[n].prevout;
      NoSpendRefused(m, vin, n);
      SpendInputsFacts(m, front);
      var m1 := SpendInputs(m, front).0;
      UndoSplits(m, vin);
      hide At, Same, GoodMap, Available, SpendOne, RestoreOne, SpendInputs;
      RestoreOneUndoes(m1, o, now);
      var undo := SpendInputs(m, vin).1;
      RestoreInputsUndoes(m, front, RestoreOne(now, o, undo[n]).0);
    }
  }

  /** One transaction taken back: its outputs leave, its inputs return. */
  lemma DisconnectTxUndoes(m: CoinMap, tx: Tx, height: int, now: CoinMap)
    requires GoodMap(m) && WellFormed(tx) && 1 <= height < INT_LIMIT
    requires tx.IsCoinBase() || HaveInputs(m, tx.vin)
    requires At(m, tx.hash) == EMPTY_COINS
    requires Same(now, UpdateCoins(m, tx, height).0)
    ensures RemoveOutputs(now, tx, height).1
    ensures tx.IsCoinBase() ==> Same(RemoveOutputs(now, tx, height).0, m)
    ensures !tx.IsCoinBase() ==>
              var undo := UpdateCoins(m, tx, height).1;
              && |undo| == |tx.vin|
              && var (back, clean) := RestoreInputs(RemoveOutputs(now, tx, height).0, tx.vin, undo);
              clean && Same(back, m)
  {
    SpendInputsFacts(m, tx.vin);
    FromTxStored(tx, height);
    var spent := if tx.IsCoinBase() then m else SpendInputs(m, tx.vin).0;
    var added := UpdateCoins(m, tx, height).0;
    assert At(now, tx.hash) == At(added, tx.hash) == FromTx(tx, height);
    forall k | k != tx.hash ensures At(now, k) == At(spent, k) {
      assert At(now, k) == At(added, k);
    }
    var removed := RemoveOutputs(now, tx, height).0;
    forall k ensures At(removed, k) == At(spent, k) {
    }
    if !tx.IsCoinBase() {
      RestoreInputsUndoes(m, tx.vin, removed);
    }
  }
}
