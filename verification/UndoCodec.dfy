/** The on-disk form of undo data, and which undo data comes back from it unchanged. */
module UndoCodec {
  import opened Basics
  import opened Transactions
  import opened CoinsRules
  import opened Ledger
  import opened BlockRules
  import opened BlockTree
  import opened Streams
  import opened CoinsCodec

  // ---------- vectors

  function Items<T>(write: T -> seq<Byte>, v: seq<T>): seq<Byte> {
    if v == [] then [] else write(v[0]) + Items(write, v[1..])
  }

  function ReadItems<T>(read: seq<Byte> -> Read<T>, n: nat, s: seq<Byte>): Read<seq<T>> {
    if n == 0 then Got([], s)
    else
      var first := read(s);
      if first.Failed? then Failed
      else
        var more := ReadItems(read, n - 1, first.rest);
        if more.Failed? then Failed else Got([first.value] + more.value, more.rest)
  }

  function VectorBytes<T>(write: T -> seq<Byte>, v: seq<T>): seq<Byte> {
    CompactSize(|v|) + Items(write, v)
  }

  function ReadVector<T>(read: seq<Byte> -> Read<T>, s: seq<Byte>): Read<seq<T>> {
    var size := ReadCompactSize(s);
    if size.Failed? then Failed else ReadItems(read, size.value, size.rest)
  }

  /** The element comes back, whatever follows it. */
  ghost predicate ComesBack<T(!new)>(write: T -> seq<Byte>, read: seq<Byte> -> Read<T>, x: T) {
    forall rest :: read(write(x) + rest) == Got(x, rest)
  }

  lemma {:induction false} ItemsRoundTrip<T(!new)>(write: T -> seq<Byte>, read: seq<Byte> -> Read<T>, v: seq<T>,
                                                   rest: seq<Byte>)
    requires forall i :: 0 <= i < |v| ==> ComesBack(write, read, v[i])
    ensures ReadItems(read, |v|, Items(write, v) + rest) == Got(v, rest)
  {
    if v == [] {
      assert Items(write, v) + rest == rest;
    } else {
      var tail := Items(write, v[1..]) + rest;
      ItemsRoundTrip(write, read, v[1..], rest);
      assert Items(write, v) + rest == write(v[0]) + tail;
      assert ComesBack(write, read, v[0]);
      assert [v[0]] + v[1..] == v;
    }
  }

  lemma VectorRoundTrip<T(!new)>(write: T -> seq<Byte>, read: seq<Byte> -> Read<T>, v: seq<T>)
    requires |v| <= MAX_SIZE && forall i :: 0 <= i < |v| ==> ComesBack(write, read, v[i])
    ensures forall rest :: ReadVector(read, VectorBytes(write, v) + rest) == Got(v, rest)
  {
    hide ReadItems, Items, CompactSize, ReadCompactSize;
    forall rest ensures ReadVector(read, VectorBytes(write, v) + rest) == Got(v, rest) {
      CompactSizeRoundTrip(|v|, Items(write, v) + rest);
      ItemsRoundTrip(write, read, v, rest);
      Regroup(CompactSize(|v|), Items(write, v), rest);
    }
  }

  // ---------- one undo record

  /** WriteVarInt on a signed integer: a negative one counts as small, so its low seven bits are all that is written. */
  function SignedVarInt(n: int): seq<Byte> {
    if n < 0 then [n % 0x80] else VarInt(n)
  }

  function InBytes(u: TxInUndo): seq<Byte> {
    VarInt(ToUnsigned(u.nHeight * 2 + if u.fCoinBase then 1 else 0))
    + (if u.nHeight > 0 then SignedVarInt(u.nVersion) else [])
    + OutBytes(u.txout)
  }

  /** Without a height the version keeps the zero it is constructed with. */
  function ReadIn(s: seq<Byte>): Read<TxInUndo> {
    var nCode := ReadVarInt(s);
    if nCode.Failed? then Failed
    else
      var version := if nCode.value / 2 > 0 then ReadVarInt(nCode.rest) else Got(0, nCode.rest);
      if version.Failed? then Failed
      else
        var out := ReadOut(version.rest);
        if out.Failed? then Failed
        else Got(TxInUndo(out.value, nCode.value % 2 == 1, nCode.value / 2, version.value), out.rest)
  }

  /** The version is not lost: it is zero where it is not written and not negative where it is. */
  predicate VersionKept(u: TxInUndo) {
    if u.nHeight == 0 then u.nVersion == 0 else u.nVersion >= 0
  }

  lemma SignedVarIntRead(n: int, rest: seq<Byte>)
    ensures ReadVarInt(SignedVarInt(n) + rest) == Got(if n < 0 then n % 0x80 else n, rest)
  {
    if n < 0 {
      OneDigit(n % 0x80, rest, 0);
    } else {
      VarIntRoundTrip(n, rest);
    }
  }

  lemma CodeParts(h: nat, cb: nat)
    requires h < INT_LIMIT && cb < 2
    ensures ToUnsigned(h * 2 + cb) / 2 == h && ToUnsigned(h * 2 + cb) % 2 == cb
  {
  }

  /** What is read back in place of a record. */
  lemma InRead(u: TxInUndo, rest: seq<Byte>)
    requires ValidOut(u.txout) && u.nHeight < INT_LIMIT
    ensures ReadIn(InBytes(u) + rest)
            == Got(u.(nVersion := if u.nHeight == 0 then 0
                                  else if u.nVersion < 0 then u.nVersion % 0x80 else u.nVersion), rest)
  {
    hide VarInt, SignedVarInt, OutBytes, ReadVarInt, ReadOut, ToUnsigned;
    var cb := if u.fCoinBase then 1 else 0;
    var nCode := ToUnsigned(u.nHeight * 2 + cb);
    var version, out := if u.nHeight > 0 then SignedVarInt(u.nVersion) else [], OutBytes(u.txout);
    CodeParts(u.nHeight, cb);
    VarIntRoundTrip(nCode, version + (out + rest));
    SignedVarIntRead(u.nVersion, out + rest);
    OutRoundTrip(u.txout, rest);
    Regroup(VarInt(nCode) + version, out, rest);
    Regroup(VarInt(nCode), version, out + rest);
    assert [] + (out + rest) == out + rest;
  }

  /** A record of a valid output survives the disk exactly when its version does. */
  lemma InRoundTrip(u: TxInUndo)
    requires ValidOut(u.txout) && u.nHeight < INT_LIMIT
    ensures ComesBack(InBytes, ReadIn, u) <==> VersionKept(u)
  {
    hide InBytes, ReadIn;
    forall rest ensures ReadIn(InBytes(u) + rest) == Got(u, rest) <==> VersionKept(u) {
      InRead(u, rest);
    }
    InRead(u, []);
    if ComesBack(InBytes, ReadIn, u) {
      assert ReadIn(InBytes(u) + []) == Got(u, []);
    }
  }

  // ---------- the undo data of a block

  function TxUndoBytes(u: TxUndo): seq<Byte> {
    VectorBytes(InBytes, u)
  }

  function ReadTxUndo(s: seq<Byte>): Read<TxUndo> {
    ReadVector(ReadIn, s)
  }

  function BlockUndoBytes(b: BlockUndo): seq<Byte> {
    VectorBytes(TxUndoBytes, b)
  }

  function ReadBlockUndo(s: seq<Byte>): Read<BlockUndo> {
    ReadVector(ReadTxUndo, s)
  }

  predicate Writable(u: TxInUndo) {
    ValidOut(u.txout) && u.nHeight < INT_LIMIT && VersionKept(u)
  }

  predicate AllWritable(u: TxUndo) {
    |u| <= MAX_SIZE && forall i :: 0 <= i < |u| ==> Writable(u[i])
  }

  lemma TxUndoRoundTrip(u: TxUndo)
    requires AllWritable(u)
    ensures ComesBack(TxUndoBytes, ReadTxUndo, u)
  {
    hide InBytes, ReadIn, VectorBytes, ReadVector;
    forall i | 0 <= i < |u| ensures ComesBack(InBytes, ReadIn, u[i]) {
      InRoundTrip(u[i]);
    }
    VectorRoundTrip(InBytes, ReadIn, u);
  }

  lemma BlockUndoRoundTrip(b: BlockUndo, rest: seq<Byte>)
    requires |b| <= MAX_SIZE && forall i :: 0 <= i < |b| ==> AllWritable(b[i])
    ensures ReadBlockUndo(BlockUndoBytes(b) + rest) == Got(b, rest)
  {
    hide TxUndoBytes, ReadTxUndo, VectorBytes, ReadVector;
    forall i | 0 <= i < |b| ensures ComesBack(TxUndoBytes, ReadTxUndo, b[i]) {
      TxUndoRoundTrip(b[i]);
    }
    VectorRoundTrip(TxUndoBytes, ReadTxUndo, b);
  }

  // ---------- what ConnectBlock writes

  /** Versions and live outputs fit their encodings. */
  predicate Encodable(c: Coins) {
    c.nVersion >= 0 && forall i :: 0 <= i < |c.vout| && !c.vout[i].IsNull() ==> ValidOut(c.vout[i])
  }

  ghost predicate AllEncodable(m: CoinMap) {
    forall id :: Encodable(At(m, id))
  }

  predicate EncodableTx(tx: Tx) {
    && tx.nVersion >= 0 && |tx.vin| <= 0x200_0000
    && forall i :: 0 <= i < |tx.vout| ==>
         0 <= tx.vout[i].nValue <= 22_000_000_000_000_000 && |tx.vout[i].scriptPubKey| <= 0x200_0000
  }

  lemma SpendEncodable(m: CoinMap, o: OutPoint)
    requires AllEncodable(m) && GoodMap(m)
    ensures AllEncodable(SpendOne(m, o).0) && |SpendOne(m, o).1| <= 1
    ensures forall i :: 0 <= i < |SpendOne(m, o).1| ==> Writable(SpendOne(m, o).1[i])
  {
    if Available(m, o) {
      AvailableAt(m, o);
      var c := m[o.hash];
      assert Encodable(At(m, o.hash)) && Stored(At(m, o.hash));
      SpentStays(c, o.n);
      var m1 := SpendOne(m, o).0;
      forall id ensures Encodable(At(m1, id)) {
        assert Encodable(At(m, id));
        forall i | id == o.hash && 0 <= i < |At(m1, id).vout| && !At(m1, id).vout[i].IsNull()
          ensures ValidOut(At(m1, id).vout[i])
        {
          assert SpentCoins(c, o.n).IsAvailable(i);
        }
      }
    }
  }

  lemma {:induction false} SpendsEncodable(m: CoinMap, vin: seq<TxIn>)
    requires AllEncodable(m) && GoodMap(m)
    ensures AllEncodable(SpendInputs(m, vin).0) && |SpendInputs(m, vin).1| <= |vin|
    ensures forall i :: 0 <= i < |SpendInputs(m, vin).1| ==> Writable(SpendInputs(m, vin).1[i])
  {
    hide Writable, AllEncodable, SpendOne, GoodMap;
    if vin != [] {
      var front := vin[..|vin| - 1];
      SpendsEncodable(m, front);
      SpendInputsFacts(m, front);
      SpendEncodable(SpendInputs(m, front).0, vin[|vin| - 1].prevout);
    }
  }

  lemma UpdateEncodable(m: CoinMap, tx: Tx, height: int)
    requires AllEncodable(m) && GoodMap(m) && EncodableTx(tx)
    ensures AllEncodable(UpdateCoins(m, tx, height).0) && AllWritable(UpdateCoins(m, tx, height).1)
  {
    hide Writable;
    SpendsEncodable(m, tx.vin);
    var m1 := if tx.IsCoinBase() then m else SpendInputs(m, tx.vin).0;
    forall id ensures Encodable(At(UpdateCoins(m, tx, height).0, id)) {
      assert id != tx.hash ==> Encodable(At(m1, id));
    }
  }

  lemma {:induction false} RunEncodable(ctx: Ctx, m: CoinMap, txs: seq<Tx>)
    requires GoodMap(m) && 1 <= ctx.height < INT_LIMIT && Undoable(m, txs) && Run(ctx, m, txs).Some?
    requires AllEncodable(m) && forall i :: 0 <= i < |txs| ==> EncodableTx(txs[i])
    ensures var acc := Run(ctx, m, txs).value;
            && AllEncodable(acc.m) && |acc.undo| <= |txs|
            && forall i :: 0 <= i < |acc.undo| ==> AllWritable(acc.undo[i])
  {
    hide AllEncodable, AllWritable, EncodableTx, UpdateCoins, GoodMap, Undoable, TxChecks;
    if txs != [] {
      var front, tx := txs[..|txs| - 1], txs[|txs| - 1];
      UndoableFront(ctx, m, txs);
      RunEncodable(ctx, m, front);
      UpdateEncodable(Run(ctx, m, front).value.m, tx, ctx.height);
    }
  }

  /** The undo record of a block that connects is the one a later disconnection reads, as long as no version is negative
      and every output fits its encoding. */
  lemma UndoSurvivesDisk(rules: Rules, m: CoinMap, b: Block, height: nat, rest: seq<Byte>)
    requires GoodMap(m) && 1 <= height < INT_LIMIT && Connect(rules, m, b, height).Some?
    requires AllEncodable(m) && |b.vtx| <= MAX_SIZE && forall i :: 0 <= i < |b.vtx| ==> EncodableTx(b.vtx[i])
    ensures AllEncodable(Connect(rules, m, b, height).value.0)
    ensures var undo := Connect(rules, m, b, height).value.1;
            ReadBlockUndo(BlockUndoBytes(undo) + rest) == Got(undo, rest)
  {
    hide AllEncodable, AllWritable, EncodableTx, BlockUndoBytes, ReadBlockUndo, Run, GoodMap;
    RunEncodable(CtxFor(rules, b, height), m, b.vtx);
    BlockUndoRoundTrip(Connect(rules, m, b, height).value.1, rest);
  }

  // ---------- along a branch

  /** Every transaction from genesis to b fits the encodings. */
  ghost predicate EncodableBranch(genesis: BlockIndex, b: BlockIndex)
    requires Rooted(b, genesis)
    decreases b.nHeight
  {
    && |b.block.vtx| <= MAX_SIZE && (forall i :: 0 <= i < |b.block.vtx| ==> EncodableTx(b.block.vtx[i]))
    && (b.pprev != null ==> EncodableBranch(genesis, b.pprev))
  }

  /** Along a valid branch of such transactions the coins stay encodable. */
  lemma {:induction false} BranchEncodable(rules: Rules, genesis: BlockIndex, b: BlockIndex)
    requires Rooted(b, genesis) && BranchValid(rules, genesis, b) && EncodableBranch(genesis, b)
    ensures AllEncodable(Replay(rules, genesis, b))
    decreases b.nHeight
  {
    hide Connect, AllEncodable, EncodableTx, GoodMap;
    if b.pprev == null {
      NothingEncodable();
    } else {
      BranchEncodable(rules, genesis, b.pprev);
      ReplayGood(rules, genesis, b.pprev);
      UndoSurvivesDisk(rules, Replay(rules, genesis, b.pprev), b.block, b.nHeight, []);
    }
  }

  lemma NothingEncodable()
    ensures AllEncodable(map[])
  {
  }

  /** The undo record of every block of a valid branch is the one that is read back from disk when the block is
      disconnected, on whatever reorganisation. */
  lemma BranchUndoSurvivesDisk(rules: Rules, genesis: BlockIndex, t: BlockIndex, h: nat, rest: seq<Byte>)
    requires Rooted(t, genesis) && BranchValid(rules, genesis, t) && EncodableBranch(genesis, t) && 1 <= h <= t.nHeight
    ensures var b := AncestorAt(t, genesis, h);
            && b.pprev != null && BranchValid(rules, genesis, b)
            && ReadBlockUndo(BlockUndoBytes(UndoOf(rules, genesis, b)) + rest) == Got(UndoOf(rules, genesis, b), rest)
    decreases t.nHeight
  {
    hide Connect, AllEncodable, EncodableTx, GoodMap, BlockUndoBytes, ReadBlockUndo;
    if h < t.nHeight {
      BranchUndoSurvivesDisk(rules, genesis, t.pprev, h, rest);
    } else {
      BranchEncodable(rules, genesis, t.pprev);
      ReplayGood(rules, genesis, t.pprev);
      UndoSurvivesDisk(rules, Replay(rules, genesis, t.pprev), t.block, t.nHeight, rest);
    }
  }

  /** The coins themselves survive the database: along such a branch every entry with an unspent output is read back
      from what is written for it, whatever follows. */
  lemma BranchCoinsSurviveDisk(rules: Rules, genesis: BlockIndex, t: BlockIndex, id: Hash, rest: seq<Byte>)
    requires Rooted(t, genesis) && BranchValid(rules, genesis, t) && EncodableBranch(genesis, t)
    ensures var c := At(Replay(rules, genesis, t), id);
            c != EMPTY_COINS ==>
              && !c.IsPruned() && c.nVersion >= 0 && c.nHeight >= 0
              && Unserialized(Serialized(c) + rest) == Got(c, rest)
  {
    hide Connect, EncodableTx, Serialized, Unserialized, Replay;
    BranchEncodable(rules, genesis, t);
    ReplayGood(rules, genesis, t);
    var m := Replay(rules, genesis, t);
    var c := At(m, id);
    assert Encodable(c);
    if c != EMPTY_COINS {
      assert Stored(c) && !c.IsPruned();
      CoinsRoundTrip(c, rest);
    }
  }
}
