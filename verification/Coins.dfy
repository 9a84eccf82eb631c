/** CCoins: the unspent outputs of one transaction, how an output is spent and how undo data brings it back. */
module CoinsRules {
  import opened Transactions

  datatype Coins = Coins(fCoinBase: bool, vout: seq<TxOut>, nHeight: int, nVersion: int)
  {
    predicate IsAvailable(n: nat) {
      n < |vout| && !vout[n].IsNull()
    }

    /** Everything is spent. */
    predicate IsPruned() {
      forall i :: 0 <= i < |vout| ==> vout[i].IsNull()
    }
  }

  const EMPTY_COINS := Coins(false, [], 0, 0)

  const INT_LIMIT: int := 0x8000_0000

  /** int to unsigned int and back, 32 bits wide. */
  function ToUnsigned(h: int): (u: nat)
    ensures u < 0x1_0000_0000 && (h - u) % 0x1_0000_0000 == 0
  {
    h % (2 * INT_LIMIT)
  }

  function ToInt(u: nat): (h: int)
    ensures -0x8000_0000 <= h < 0x8000_0000 && (h - u) % 0x1_0000_0000 == 0
  {
    var w := u % (2 * INT_LIMIT);
    if w < INT_LIMIT then w else w - 2 * INT_LIMIT
  }

  function FromTx(tx: Tx, height: int): Coins {
    Coins(tx.IsCoinBase(), tx.vout, height, tx.nVersion)
  }

  /** vout without its spent tail. */
  function Trimmed(vout: seq<TxOut>): seq<TxOut> {
    if vout != [] && vout[|vout| - 1].IsNull() then Trimmed(vout[..|vout| - 1]) else vout
  }

  /** Trimmed drops null outputs only, and stops at the first live one. */
  lemma {:induction false} TrimmedMeaning(vout: seq<TxOut>)
    ensures Trimmed(vout) <= vout
    ensures forall i :: |Trimmed(vout)| <= i < |vout| ==> vout[i].IsNull()
    ensures Trimmed(vout) != [] ==> !Trimmed(vout)[|Trimmed(vout)| - 1].IsNull()
  {
    if vout != [] && vout[|vout| - 1].IsNull() {
      TrimmedMeaning(vout[..|vout| - 1]);
    }
  }

  /** The form in which unspent coins are stored: last output live, spent outputs in their SetNull form, and a
      height that undo data can tell from "not the last output". */
  predicate Stored(c: Coins) {
    && (c.vout != [] ==> !c.vout[|c.vout| - 1].IsNull())
    && (forall i :: 0 <= i < |c.vout| && c.vout[i].IsNull() ==> c.vout[i] == NULL_OUT)
    && 1 <= c.nHeight < INT_LIMIT
  }

  function SpentCoins(c: Coins, n: nat): Coins
    requires c.IsAvailable(n)
  {
    c.(vout := Trimmed(c.vout[n := NULL_OUT]))
  }

  function SpendUndo(c: Coins, n: nat): TxInUndo
    requires c.IsAvailable(n)
  {
    if SpentCoins(c, n).vout == []
    then TxInUndo(c.vout[n], c.fCoinBase, ToUnsigned(c.nHeight), c.nVersion)
    else TxInUndo(c.vout[n], false, 0, 0)
  }

  function Resized(vout: seq<TxOut>, size: nat): seq<TxOut> {
    if |vout| < size then vout + seq(size - |vout|, i => NULL_OUT) else vout
  }

  /** The input-restoring step of DisconnectBlock on one coins entry: the new entry, and whether it looked clean. */
  function RestoredCoins(c: Coins, n: nat, undo: TxInUndo): (Coins, bool) {
    var base := if undo.nHeight != 0 then Coins(undo.fCoinBase, [], ToInt(undo.nHeight), undo.nVersion) else c;
    var metaOk := if undo.nHeight != 0 then c.IsPruned() else !c.IsPruned();
    (base.(vout := Resized(base.vout, n + 1)[n := undo.txout]), metaOk && !base.IsAvailable(n))
  }

  lemma SpentStays(c: Coins, n: nat)
    requires c.IsAvailable(n) && Stored(c)
    ensures Stored(SpentCoins(c, n))
    ensures SpentCoins(c, n).IsPruned() <==> SpentCoins(c, n).vout == []
    ensures !SpentCoins(c, n).IsAvailable(n)
    ensures forall k: nat :: k != n ==> (SpentCoins(c, n).IsAvailable(k) <==> c.IsAvailable(k))
    ensures forall k: nat :: SpentCoins(c, n).IsAvailable(k) ==>
            k < |c.vout| && SpentCoins(c, n).vout[k] == c.vout[k]
  {
    TrimmedMeaning(c.vout[n := NULL_OUT]);
  }

  /** Undo data restores the entry it was taken from. When it was the last output, whatever stands in its place
      now, absent or fully spent, is overwritten. */
  lemma RestoreAfterSpend(c: Coins, n: nat, now: Coins)
    requires c.IsAvailable(n) && Stored(c)
    requires now == SpentCoins(c, n) || (SpentCoins(c, n).IsPruned() && now.IsPruned())
    ensures RestoredCoins(now, n, SpendUndo(c, n)) == (c, true)
  {
    SpentStays(c, n);
    SpentShape(c, n);
    var s := SpentCoins(c, n);
    Refill(s.vout, c.vout, n);
    if s.vout == [] {
      assert now.IsPruned() && SpendUndo(c, n).nHeight == c.nHeight != 0;
    } else {
      assert now == s && !s.IsPruned();
    }
  }

  lemma Refill(v: seq<TxOut>, full: seq<TxOut>, n: nat)
    requires n < |full|
    requires if n < |full| - 1 then v == full[n := NULL_OUT]
             else |v| <= n == |full| - 1 && v == full[..|v|] && forall i :: |v| <= i < n ==> full[i] == NULL_OUT
    ensures Resized(v, n + 1)[n := full[n]] == full
  {
    var r := Resized(v, n + 1);
    assert |r| == |full|;
    assert forall i :: 0 <= i < |full| && i != n ==> r[i] == full[i];
  }

  /** Spending inside the vector leaves its length; spending the last output cuts off a tail of nulls with it. */
  lemma SpentShape(c: Coins, n: nat)
    requires c.IsAvailable(n) && Stored(c)
    ensures var v := SpentCoins(c, n).vout;
            if n < |c.vout| - 1 then v == c.vout[n := NULL_OUT]
            else |v| <= n == |c.vout| - 1
                 && v == c.vout[..|v|]
                 && forall i :: |v| <= i < n ==> c.vout[i] == NULL_OUT
  {
    var holed := c.vout[n := NULL_OUT];
    TrimmedMeaning(holed);
    var v := Trimmed(holed);
    if n < |c.vout| - 1 {
      assert !holed[|c.vout| - 1].IsNull();
      assert |v| == |holed|;
    } else {
      assert n == |c.vout| - 1;
      assert holed[n].IsNull();
      assert forall i :: 0 <= i < n ==> holed[i] == c.vout[i];
      assert v == holed[..|v|];
    }
  }

  /** A coins object as the code updates it in place. */
  class CoinsEntry {
    var fCoinBase: bool
    var vout: seq<TxOut>
    var nHeight: int
    var nVersion: int

    function Value(): Coins
      reads this
    {
      Coins(fCoinBase, vout, nHeight, nVersion)
    }

    constructor (c: Coins)
      ensures Value() == c
    {
      fCoinBase, vout, nHeight, nVersion := c.fCoinBase, c.vout, c.nHeight, c.nVersion;
    }

    /** Pops spent outputs off the end. */
    method Cleanup()
      modifies this`vout
      ensures vout == Trimmed(old(vout))
    {
      while vout != [] && vout[|vout| - 1].IsNull()
        invariant Trimmed(vout) == Trimmed(old(vout))
        decreases |vout|
      {
        vout := vout[..|vout| - 1];
      }
    }

    /** Marks an output spent and builds its undo record; refuses an output that is missing or spent. */
    method Spend(n: nat) returns (ok: bool, undo: TxInUndo)
      modifies this`vout
      ensures ok <==> old(Value()).IsAvailable(n)
      ensures ok ==> Value() == SpentCoins(old(Value()), n) && undo == SpendUndo(old(Value()), n)
      ensures !ok ==> Value() == old(Value())
    {
      undo := TxInUndo(NULL_OUT, false, 0, 0);
      if n >= |vout| {
        return false, undo;
      }
      if vout[n].IsNull() {
        return false, undo;
      }
      undo := TxInUndo(vout[n], false, 0, 0);
      vout := vout[n := NULL_OUT];
      Cleanup();
      if |vout| == 0 {
        undo := undo.(nHeight := ToUnsigned(nHeight), fCoinBase := fCoinBase, nVersion := nVersion);
      }
      return true, undo;
    }
  }
}
