/** Transactions, blocks and the context-free transaction rules (main.h, CTransaction::CheckTransaction). */
module Transactions {

  const COIN: int := 100_000_000
  const MAX_MONEY: int := 220_000_000 * COIN
  const MAX_BLOCK_SIZE: int := 200_000
  const MAX_BLOCK_SIGOPS: int := MAX_BLOCK_SIZE / 50
  const COINBASE_MATURITY: int := 100
  const NULL_INDEX: int := 0xFFFF_FFFF

  /** A 256-bit digest. Hash functions stay uninterpreted, so only identity matters. */
  type Hash = nat

  type Byte = b: int | 0 <= b < 256

  type Script = seq<Byte>

  datatype OutPoint = OutPoint(hash: Hash, n: nat) {
    predicate IsNull() {
      hash == 0 && n == NULL_INDEX
    }
  }

  datatype TxIn = TxIn(prevout: OutPoint, scriptSig: Script, nSequence: nat)

  datatype TxOut = TxOut(nValue: int, scriptPubKey: Script) {
    predicate IsNull() {
      nValue == -1
    }
  }

  /** What SetNull leaves behind. */
  const NULL_OUT := TxOut(-1, [])

  /** `hash`, `size` and `sigOps` are what GetHash, GetSerializeSize and GetLegacySigOpCount return. */
  datatype Tx = Tx(hash: Hash, nVersion: int, vin: seq<TxIn>, vout: seq<TxOut>, nLockTime: nat,
                   size: nat, sigOps: nat)
  {
    predicate IsCoinBase() {
      |vin| == 1 && vin[0].prevout.IsNull()
    }
  }

  /** Pooled transactions by hash (mapTx). */
  type Pool = map<Hash, Tx>

  predicate MoneyRange(v: int) {
    0 <= v <= MAX_MONEY
  }

  function ValueSum(outs: seq<TxOut>): int {
    if outs == [] then 0 else ValueSum(outs[..|outs| - 1]) + outs[|outs| - 1].nValue
  }

  /** Every value and every running total that CheckTransaction and GetValueOut test is in range. */
  predicate OutputsInRange(outs: seq<TxOut>) {
    outs != [] ==>
      && OutputsInRange(outs[..|outs| - 1])
      && MoneyRange(outs[|outs| - 1].nValue)
      && MoneyRange(ValueSum(outs))
  }

  lemma {:induction false} PrefixInRange(outs: seq<TxOut>, i: nat)
    requires i < |outs| && OutputsInRange(outs)
    ensures OutputsInRange(outs[..i + 1]) && MoneyRange(outs[i].nValue) && MoneyRange(ValueSum(outs[..i + 1]))
  {
    if i < |outs| - 1 {
      PrefixInRange(outs[..|outs| - 1], i);
      assert outs[..|outs| - 1][..i + 1] == outs[..i + 1];
    } else {
      assert outs[..i + 1] == outs;
    }
  }

  ghost predicate DistinctInputs(vin: seq<TxIn>) {
    forall i, j :: 0 <= i < j < |vin| ==> vin[i].prevout != vin[j].prevout
  }

  /** The declarative meaning of CheckTransaction. */
  ghost predicate WellFormed(tx: Tx) {
    && tx.vin != [] && tx.vout != []
    && tx.size <= MAX_BLOCK_SIZE
    && OutputsInRange(tx.vout)
    && DistinctInputs(tx.vin)
    && (tx.IsCoinBase() ==> 2 <= |tx.vin[0].scriptSig| <= 100)
    && (!tx.IsCoinBase() ==> forall i :: 0 <= i < |tx.vin| ==> !tx.vin[i].prevout.IsNull())
  }

  /** CheckTransaction, loop for loop; it accepts exactly the well-formed transactions. */
  method CheckTransaction(tx: Tx) returns (ok: bool)
    ensures ok <==> WellFormed(tx)
  {
    if tx.vin == [] || tx.vout == [] || tx.size > MAX_BLOCK_SIZE {
      return false;
    }
    var nValueOut := 0;
    for i := 0 to |tx.vout|
      invariant nValueOut == ValueSum(tx.vout[..i])
      invariant OutputsInRange(tx.vout[..i])
    {
      if OutputsInRange(tx.vout) {
        PrefixInRange(tx.vout, i);
      }
      assert tx.vout[..i + 1][..i] == tx.vout[..i];
      if tx.vout[i].nValue < 0 || tx.vout[i].nValue > MAX_MONEY {
        return false;
      }
      nValueOut := nValueOut + tx.vout[i].nValue;
      if !MoneyRange(nValueOut) {
        return false;
      }
    }
    assert tx.vout[..|tx.vout|] == tx.vout;
    var vInOutPoints: set<OutPoint> := {};
    for i := 0 to |tx.vin|
      invariant vInOutPoints == set k | 0 <= k < i :: tx.vin[k].prevout
      invariant DistinctInputs(tx.vin[..i])
    {
      if tx.vin[i].prevout in vInOutPoints {
        return false;
      }
      vInOutPoints := vInOutPoints + {tx.vin[i].prevout};
    }
    assert tx.vin[..|tx.vin|] == tx.vin;
    if tx.IsCoinBase() {
      return 2 <= |tx.vin[0].scriptSig| <= 100;
    }
    for i := 0 to |tx.vin|
      invariant forall k :: 0 <= k < i ==> !tx.vin[k].prevout.IsNull()
    {
      if tx.vin[i].prevout.IsNull() {
        return false;
      }
    }
    return true;
  }

  datatype TxInUndo = TxInUndo(txout: TxOut, fCoinBase: bool, nHeight: nat, nVersion: int)

  /** One entry per input (CTxUndo). */
  type TxUndo = seq<TxInUndo>

  /** One entry per non-coinbase transaction (CBlockUndo). */
  type BlockUndo = seq<TxUndo>

  /** `nTime` and `vtx` are block content; `otherChecksPass` is the verdict of the parts of CheckBlock that
      look at sizes, clocks, proof of work and the Merkle root. */
  datatype Block = Block(vtx: seq<Tx>, nTime: nat, otherChecksPass: bool)

  /** The context-free rules of CheckBlock that the ledger relies on. */
  ghost predicate WellFormedBlock(b: Block) {
    && b.otherChecksPass
    && b.vtx != []
    && b.vtx[0].IsCoinBase()
    && (forall i :: 1 <= i < |b.vtx| ==> !b.vtx[i].IsCoinBase())
    && (forall i :: 0 <= i < |b.vtx| ==> WellFormed(b.vtx[i]))
    && (forall i, j :: 0 <= i < j < |b.vtx| ==> b.vtx[i].hash != b.vtx[j].hash)
  }

  /** CheckBlock accepts exactly the well-formed blocks. */
  method CheckBlock(b: Block) returns (ok: bool)
    ensures ok <==> WellFormedBlock(b)
  {
    if b.vtx == [] || !b.otherChecksPass || !b.vtx[0].IsCoinBase() {
      return false;
    }
    for i := 1 to |b.vtx|
      invariant forall k :: 1 <= k < i ==> !b.vtx[k].IsCoinBase()
    {
      if b.vtx[i].IsCoinBase() {
        return false;
      }
    }
    for i := 0 to |b.vtx|
      invariant forall k :: 0 <= k < i ==> WellFormed(b.vtx[k])
    {
      var good := CheckTransaction(b.vtx[i]);
      if !good {
        return false;
      }
    }
    ok := DistinctHashes(b.vtx);
  }

  /** Compares the size of the set of txids with the number of transactions. */
  method DistinctHashes(vtx: seq<Tx>) returns (ok: bool)
    ensures ok <==> forall i, j :: 0 <= i < j < |vtx| ==> vtx[i].hash != vtx[j].hash
  {
    var uniqueTx: set<Hash> := {};
    for i := 0 to |vtx|
      invariant forall k :: 0 <= k < i ==> vtx[k].hash in uniqueTx
      invariant forall h :: h in uniqueTx ==> exists k :: 0 <= k < i && vtx[k].hash == h
      invariant |uniqueTx| <= i
      invariant |uniqueTx| == i ==> forall k, l :: 0 <= k < l < i ==> vtx[k].hash != vtx[l].hash
      invariant |uniqueTx| < i ==> exists k, l :: 0 <= k < l < i && vtx[k].hash == vtx[l].hash
    {
      uniqueTx := uniqueTx + {vtx[i].hash};
    }
    return |uniqueTx| == |vtx|;
  }
}
