/** The other direction of undoing: a disconnection that looks clean is one that connecting takes back. */
module CleanUndo {
  import opened Basics
  import opened Transactions
  import opened CoinsRules
  import opened Ledger
  import opened BlockMeaning

  /** Undo data of a live output, with a height that fits an int where it carries metadata. */
  predicate Plausible(u: TxInUndo) {
    !u.txout.IsNull() && u.nHeight < INT_LIMIT
  }

  predicate AllPlausible(undo: TxUndo) {
    forall i :: 0 <= i < |undo| ==> Plausible(undo[i])
  }

  lemma {:induction false} NullsTrimmed(v: seq<TxOut>, k: nat)
    requires k <= |v| && (k > 0 ==> !v[k - 1].IsNull()) && forall i :: k <= i < |v| ==> v[i].IsNull()
    ensures Trimmed(v) == v[..k]
  {
    if k < |v| {
      NullsTrimmed(v[..|v| - 1], k);
    }
  }

  /** A spent output put back and spent again leaves the entry as it was. */
  lemma PutBackInside(c: Coins, n: nat, txout: TxOut)
    requires Stored(c) && !c.IsAvailable(n) && !txout.IsNull()
    ensures var c' := c.(vout := Resized(c.vout, n + 1)[n := txout]);
            Stored(c') && c'.IsAvailable(n) && SpentCoins(c', n) == c
  {
    var v := Resized(c.vout, n + 1)[n := NULL_OUT];
    assert Resized(c.vout, n + 1)[n := txout][n := NULL_OUT] == v;
    assert Trimmed(v) == c.vout by {
      assert v[..|c.vout|] == c.vout;
      NullsTrimmed(v, |c.vout|);
    }
    hide Trimmed;
  }

  /** An output put back alone into a fresh entry and spent again leaves nothing. */
  lemma PutBackAlone(c: Coins, n: nat, txout: TxOut)
    requires c.vout == [] && 1 <= c.nHeight < INT_LIMIT && !txout.IsNull()
    ensures var c' := c.(vout := Resized(c.vout, n + 1)[n := txout]);
            Stored(c') && c'.IsAvailable(n) && SpentCoins(c', n).IsPruned()
  {
    var v := Resized(c.vout, n + 1)[n := NULL_OUT];
    assert Resized(c.vout, n + 1)[n := txout][n := NULL_OUT] == v;
    NullsTrimmed(v, 0);
  }

  lemma RestoredIsStored(m: CoinMap, o: OutPoint, u: TxInUndo)
    requires GoodMap(m) && Plausible(u) && RestoreOne(m, o, u).1
    ensures var m1 := RestoreOne(m, o, u).0;
            && Stored(m1[o.hash]) && m1[o.hash].IsAvailable(o.n)
            && (var c := SpentCoins(m1[o.hash], o.n); if c.IsPruned() then At(m, o.hash) == EMPTY_COINS
                                                      else At(m, o.hash) == c)
  {
    hide Trimmed, SpentCoins, Resized, Stored;
    var c := if o.hash in m then m[o.hash] else EMPTY_COINS;
    if u.nHeight != 0 {
      PutBackAlone(Coins(u.fCoinBase, [], ToInt(u.nHeight), u.nVersion), o.n, u.txout);
    } else {
      assert At(m, o.hash) == c && Stored(c);
      PutBackInside(c, o.n, u.txout);
      hide RestoredCoins;
    }
  }

  /** One input: a clean restoration makes the output available, and spending it takes the restoration back. */
  lemma RestoreOneRedone(m: CoinMap, o: OutPoint, u: TxInUndo)
    requires GoodMap(m) && Plausible(u) && RestoreOne(m, o, u).1
    ensures var m1 := RestoreOne(m, o, u).0;
            GoodMap(m1) && Available(m1, o) && Same(SpendOne(m1, o).0, m)
  {
    RestoredIsStored(m, o, u);
    hide RestoredCoins, SpentCoins, Stored, SpendUndo;
    var m1 := RestoreOne(m, o, u).0;
    forall id ensures At(m1, id) == EMPTY_COINS || Stored(At(m1, id)) {
      assert id != o.hash ==> At(m1, id) == At(m, id);
    }
    var m2 := SpendOne(m1, o).0;
    forall id ensures At(m2, id) == At(m, id) {
    }
  }

  lemma SpendOneSame(m1: CoinMap, m2: CoinMap, o: OutPoint)
    requires Same(m1, m2)
    ensures Same(SpendOne(m1, o).0, SpendOne(m2, o).0)
  {
    SameAvailable(m1, m2, o);
    if Available(m1, o) {
      var c := SpentCoins(m1[o.hash], o.n);
      SameUpdate(m1, m2, o.hash, c, c);
    }
  }

  lemma SameTrans(a: CoinMap, b: CoinMap, c: CoinMap)
    requires Same(a, b) && Same(b, c)
    ensures Same(a, c)
  {
    forall id ensures At(a, id) == At(c, id) {
      assert At(a, id) == At(b, id);
    }
  }

  /** All inputs of a transaction. */
  lemma {:induction false} RestoreInputsRedone(m: CoinMap, vin: seq<TxIn>, undo: TxUndo)
    requires GoodMap(m) && |vin| == |undo| && AllPlausible(undo) && RestoreInputs(m, vin, undo).1
    ensures var m' := RestoreInputs(m, vin, undo).0;
            GoodMap(m') && Same(SpendInputs(m', vin).0, m)
    decreases |vin|
  {
    if vin != [] {
      var last := |vin| - 1;
      var o := vin[last].prevout;
      assert Plausible(undo[last]);
      hide Plausible;
      var m1 := RestoreOne(m, o, undo[last]).0;
      RestoreOneRedone(m, o, undo[last]);
      RestoreInputsRedone(m1, vin[..last], undo[..last]);
      var m' := RestoreInputs(m, vin, undo).0;
      var spent := SpendInputs(m', vin[..last]).0;
      hide RestoreOne, GoodMap;
      SpendOneSame(spent, m1, o);
      SameTrans(SpendOne(spent, o).0, SpendOne(m1, o).0, m);
    }
  }

  /** One transaction: when its outputs stood untouched and its inputs were gone, applying it again gives the coins
      back. A negative version is left out, as it is taken from the block. */
  lemma CleanTxRedone(m: CoinMap, tx: Tx, undo: TxUndo, height: int)
    requires GoodMap(m) && tx.nVersion >= 0 && RemoveOutputs(m, tx, height).1
    requires !tx.IsCoinBase() ==>
               && |tx.vin| == |undo| && AllPlausible(undo)
               && RestoreInputs(RemoveOutputs(m, tx, height).0, tx.vin, undo).1
    ensures var m1 := RemoveOutputs(m, tx, height).0;
            var before := if tx.IsCoinBase() then m1 else RestoreInputs(m1, tx.vin, undo).0;
            GoodMap(before) && Same(UpdateCoins(before, tx, height).0, m)
  {
    hide Stored, FromTx, Tx.IsCoinBase;
    var m1 := RemoveOutputs(m, tx, height).0;
    forall id ensures At(m1, id) == EMPTY_COINS || Stored(At(m1, id)) {
      assert id != tx.hash ==> At(m1, id) == At(m, id);
    }
    assert m[tx.hash] == FromTx(tx, height);
    var before := if tx.IsCoinBase() then m1 else RestoreInputs(m1, tx.vin, undo).0;
    var spent := if tx.IsCoinBase() then m1 else SpendInputs(before, tx.vin).0;
    if !tx.IsCoinBase() {
      RestoreInputsRedone(m1, tx.vin, undo);
    }
    assert Same(spent, m1);
    forall k | k != tx.hash ensures At(spent, k) == At(m, k) {
      assert At(spent, k) == At(m1, k);
    }
    SameUpdate(spent, m, tx.hash, FromTx(tx, height), FromTx(tx, height));
    assert m[tx.hash := FromTx(tx, height)] == m;
  }

  lemma {:induction false} PrefixCoins(m: CoinMap, vtx: seq<Tx>, height: int, k: nat, i: nat)
    requires i <= k <= |vtx|
    ensures CoinsBefore(m, vtx[..k], height, i) == CoinsBefore(m, vtx, height, i)
  {
    if i > 0 {
      PrefixCoins(m, vtx, height, k, i - 1);
    }
  }

  /** A block: when its disconnection looked clean, connecting its transactions again, in order, gives back the coins it
      was disconnected from. */
  lemma {:induction false} CleanBlockRedone(m: CoinMap, vtx: seq<Tx>, undo: BlockUndo, height: int)
    requires GoodMap(m) && vtx != [] && |undo| + 1 == |vtx|
    requires forall i :: 0 <= i < |vtx| ==> vtx[i].nVersion >= 0 && (vtx[i].IsCoinBase() <==> i == 0)
    requires forall i :: 0 <= i < |undo| ==> AllPlausible(undo[i])
    requires DisconnectTxs(m, vtx, undo, height).Some? && DisconnectTxs(m, vtx, undo, height).value.1
    ensures var before := DisconnectTxs(m, vtx, undo, height).value.0;
            GoodMap(before) && Same(CoinsBefore(before, vtx, height, |vtx|), m)
    decreases |vtx|
  {
    hide GoodMap, AllPlausible, UpdateCoins, RemoveOutputs, RestoreInputs, Tx.IsCoinBase;
    var last := |vtx| - 1;
    var tx := vtx[last];
    var before := DisconnectTxs(m, vtx, undo, height).value.0;
    if last == 0 {
      CleanTxRedone(m, tx, [], height);
      assert CoinsBefore(before, vtx, height, 0) == before;
    } else {
      CleanTxRedone(m, tx, undo[last - 1], height);
      var mid := RestoreInputs(RemoveOutputs(m, tx, height).0, tx.vin, undo[last - 1]).0;
      CleanBlockRedone(mid, vtx[..last], undo[..last - 1], height);
      PrefixCoins(before, vtx, height, last, last);
      var so := CoinsBefore(before, vtx, height, last);
      UpdateCoinsSame(so, mid, tx, height);
      SameTrans(UpdateCoins(so, tx, height).0, UpdateCoins(mid, tx, height).0, m);
    }
  }
}
