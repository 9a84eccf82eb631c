/** The on-disk form of CCoins: version, a code word, a bit mask of the unspent outputs, those outputs, the height. */
module CoinsCodec {
  import opened Basics
  import opened Transactions
  import opened CoinsRules
  import opened Streams
  import opened Amounts

  // ---------- one output

  function OutBytes(o: TxOut): seq<Byte> {
    VarInt(Compressed(o.nValue % UINT64_LIMIT) % UINT64_LIMIT) + ScriptBytes(o.scriptPubKey)
  }

  function ReadOut(s: seq<Byte>): Read<TxOut> {
    var nVal := ReadVarInt(s);
    if nVal.Failed? then Failed
    else
      var script := ReadScript(nVal.rest);
      if script.Failed? then Failed else Got(TxOut(Decompressed(nVal.value), script.value), script.rest)
  }

  predicate ValidOut(o: TxOut) {
    0 <= o.nValue <= MAX_MONEY && |o.scriptPubKey| <= MAX_SIZE
  }

  lemma OutRoundTrip(o: TxOut, rest: seq<Byte>)
    requires ValidOut(o)
    ensures ReadOut(OutBytes(o) + rest) == Got(o, rest)
  {
    hide VarInt, ScriptBytes, ReadVarInt, ReadScript, Compressed, Decompressed;
    CodeFits(o.nValue);
    DecompressCompress(o.nValue);
    var amount, script := VarInt(Compressed(o.nValue)), ScriptBytes(o.scriptPubKey);
    VarIntRoundTrip(Compressed(o.nValue), script + rest);
    ScriptRoundTrip(o.scriptPubKey, rest);
    assert OutBytes(o) == amount + script;
    Regroup(amount, script, rest);
  }

  // ---------- the mask

  /** Output i is there and unspent. */
  predicate Live(vout: seq<TxOut>, i: nat) {
    i < |vout| && !vout[i].IsNull()
  }

  lemma EightBits()
    ensures Pow2(8) == 256
  {
    assert Pow2(3) == 8 && Pow2(6) == 64;
  }

  /** k bits, one for each output from i on, least significant first. */
  function BitField(vout: seq<TxOut>, i: nat, k: nat): (c: nat)
    ensures c < Pow2(k)
    decreases k
  {
    if k == 0 then 0 else (if Live(vout, i) then 1 else 0) + 2 * BitField(vout, i + 1, k - 1)
  }

  function MaskByte(vout: seq<TxOut>, b: nat): Byte {
    EightBits();
    BitField(vout, 2 + 8 * b, 8)
  }

  function Bits(c: nat, k: nat): (r: seq<bool>)
    ensures |r| == k
  {
    if k == 0 then [] else [c % 2 == 1] + Bits(c / 2, k - 1)
  }

  lemma {:induction false} BitsOfField(vout: seq<TxOut>, i: nat, k: nat, p: nat)
    requires p < k
    ensures Bits(BitField(vout, i, k), k)[p] == Live(vout, i + p)
    decreases k
  {
    var rest := BitField(vout, i + 1, k - 1);
    var c := BitField(vout, i, k);
    assert c / 2 == rest && (c % 2 == 1) == Live(vout, i);
    assert Bits(c, k) == [c % 2 == 1] + Bits(rest, k - 1);
    if p > 0 {
      BitsOfField(vout, i + 1, k - 1, p - 1);
      hide BitField, Bits;
      assert Bits(c, k)[p] == Bits(rest, k - 1)[p - 1];
    }
  }

  lemma FieldOfByte(vout: seq<TxOut>, b: nat, p: nat)
    requires p < 8
    ensures Bits(MaskByte(vout, b), 8)[p] == Live(vout, 2 + 8 * b + p)
  {
    BitsOfField(vout, 2 + 8 * b, 8, p);
  }

  lemma {:induction false} FieldZero(vout: seq<TxOut>, i: nat, k: nat)
    ensures BitField(vout, i, k) == 0 <==> forall j :: i <= j < i + k ==> !Live(vout, j)
    decreases k
  {
    if k > 0 {
      FieldZero(vout, i + 1, k - 1);
    }
  }

  /** One more than the last nonzero byte below n. */
  function MaskSize(vout: seq<TxOut>, n: nat): nat {
    if n == 0 then 0 else if MaskByte(vout, n - 1) != 0 then n else MaskSize(vout, n - 1)
  }

  lemma {:induction false} MaskSizeMeaning(vout: seq<TxOut>, n: nat)
    ensures var r := MaskSize(vout, n);
            && r <= n && (r > 0 ==> MaskByte(vout, r - 1) != 0)
            && forall b :: r <= b < n ==> MaskByte(vout, b) == 0
  {
    hide MaskByte;
    if n > 0 && MaskByte(vout, n - 1) == 0 {
      MaskSizeMeaning(vout, n - 1);
    }
  }

  function NonZero(vout: seq<TxOut>, from: nat, n: nat): nat
    decreases n - from
  {
    if from >= n then 0 else (if MaskByte(vout, from) != 0 then 1 else 0) + NonZero(vout, from + 1, n)
  }

  function Mask(vout: seq<TxOut>, from: nat, n: nat): seq<Byte>
    decreases n - from
  {
    if from >= n then [] else [MaskByte(vout, from)] + Mask(vout, from + 1, n)
  }

  /** How many bytes CalcMaskSize looks at. */
  function Blocks(vout: seq<TxOut>): nat {
    if |vout| <= 2 then 0 else (|vout| + 5) / 8
  }

  function ReadMask(s: seq<Byte>, left: nat, avail: seq<bool>): Read<seq<bool>>
    decreases |s|
  {
    if left == 0 then Got(avail, s)
    else if s == [] then Failed
    else ReadMask(s[1..], if s[0] != 0 then left - 1 else left, avail + Bits(s[0], 8))
  }

  /** avail says of every output it covers whether it is live. */
  predicate Tells(avail: seq<bool>, vout: seq<TxOut>) {
    forall i :: 0 <= i < |avail| ==> avail[i] == Live(vout, i)
  }

  lemma {:induction false} MaskRead(vout: seq<TxOut>, from: nat, n: nat, rest: seq<Byte>, avail: seq<bool>)
    requires from <= n && (n > 0 ==> MaskByte(vout, n - 1) != 0)
    requires |avail| == 2 + 8 * from && Tells(avail, vout)
    ensures var r := ReadMask(Mask(vout, from, n) + rest, NonZero(vout, from, n), avail);
            r.Got? && r.rest == rest && |r.value| == 2 + 8 * n && Tells(r.value, vout)
    decreases n - from
  {
    hide BitField, Bits, Live, MaskByte;
    if from == n {
      assert Mask(vout, from, n) + rest == rest;
    } else {
      var c := MaskByte(vout, from);
      var more := avail + Bits(c, 8);
      TellsMore(vout, from, avail);
      NonZeroPositive(vout, from, n);
      MaskRead(vout, from + 1, n, rest, more);
      hide Tells;
      var s := Mask(vout, from, n) + rest;
      assert s[0] == c && s[1..] == Mask(vout, from + 1, n) + rest;
    }
  }

  lemma TellsMore(vout: seq<TxOut>, from: nat, avail: seq<bool>)
    requires |avail| == 2 + 8 * from && Tells(avail, vout)
    ensures Tells(avail + Bits(MaskByte(vout, from), 8), vout)
  {
    hide BitField, Bits, Live, MaskByte;
    var more := avail + Bits(MaskByte(vout, from), 8);
    forall i | 0 <= i < |more| ensures more[i] == Live(vout, i) {
      if i >= |avail| {
        FieldOfByte(vout, from, i - |avail|);
      }
    }
  }

  lemma {:induction false} NonZeroPositive(vout: seq<TxOut>, from: nat, n: nat)
    requires from < n && MaskByte(vout, n - 1) != 0
    ensures NonZero(vout, from, n) > 0
    decreases n - from
  {
    if from < n - 1 {
      NonZeroPositive(vout, from + 1, n);
    }
  }

  // ---------- the outputs

  function OutsBytes(vout: seq<TxOut>, from: nat): seq<Byte>
    decreases |vout| - from
  {
    if from >= |vout| then []
    else (if vout[from].IsNull() then [] else OutBytes(vout[from])) + OutsBytes(vout, from + 1)
  }

  function ReadOuts(s: seq<Byte>, avail: seq<bool>): Read<seq<TxOut>>
    decreases |avail|
  {
    if avail == [] then Got([], s)
    else
      var first := if avail[0] then ReadOut(s) else Got(NULL_OUT, s);
      if first.Failed? then Failed
      else
        var others := ReadOuts(first.rest, avail[1..]);
        if others.Failed? then Failed else Got([first.value] + others.value, others.rest)
  }

  /** The outputs from `from` on, padded with null outputs. */
  function Padded(vout: seq<TxOut>, from: nat, n: nat): (r: seq<TxOut>)
    requires from <= n
    ensures |r| == n - from
    decreases n - from
  {
    if from == n then [] else [if from < |vout| then vout[from] else NULL_OUT] + Padded(vout, from + 1, n)
  }

  lemma {:induction false} OutsRead(vout: seq<TxOut>, from: nat, avail: seq<bool>, rest: seq<Byte>)
    requires |vout| <= |avail| && from <= |avail| && Tells(avail, vout)
    requires forall i :: 0 <= i < |vout| ==> if vout[i].IsNull() then vout[i] == NULL_OUT else ValidOut(vout[i])
    ensures ReadOuts(OutsBytes(vout, from) + rest, avail[from..]) == Got(Padded(vout, from, |avail|), rest)
    decreases |avail| - from
  {
    hide OutBytes, ReadOut, ValidOut;
    if from == |avail| {
      assert OutsBytes(vout, from) + rest == rest;
    } else {
      hide ReadOuts;
      OutsRead(vout, from + 1, avail, rest);
      assert avail[from..][1..] == avail[from + 1..] && avail[from..][0] == avail[from];
      var tail := OutsBytes(vout, from + 1) + rest;
      if avail[from] {
        OutRoundTrip(vout[from], tail);
        Regroup(OutBytes(vout[from]), OutsBytes(vout, from + 1), rest);
        ReadOutsFront(OutBytes(vout[from]) + tail, avail[from..], vout[from], tail);
      } else {
        assert OutsBytes(vout, from) + rest == tail;
        ReadOutsFront(tail, avail[from..], NULL_OUT, tail);
      }
    }
  }

  lemma ReadOutsFront(s: seq<Byte>, avail: seq<bool>, o: TxOut, tail: seq<Byte>)
    requires avail != [] && (if avail[0] then ReadOut(s) else Got(NULL_OUT, s)) == Got(o, tail)
    requires ReadOuts(tail, avail[1..]).Got?
    ensures var r := ReadOuts(tail, avail[1..]);
            ReadOuts(s, avail) == Got([o] + r.value, r.rest)
  {
  }

  lemma {:induction false} PaddedAt(vout: seq<TxOut>, from: nat, n: nat, i: nat)
    requires from <= n && i < n - from
    ensures Padded(vout, from, n)[i] == if from + i < |vout| then vout[from + i] else NULL_OUT
    decreases n - from
  {
    if i > 0 {
      PaddedAt(vout, from + 1, n, i - 1);
    }
  }

  /** Cleanup takes the padding off again. */
  lemma TrimPadded(vout: seq<TxOut>, n: nat)
    requires |vout| <= n && vout != [] && !vout[|vout| - 1].IsNull()
    ensures Trimmed(Padded(vout, 0, n)) == vout
  {
    var p := Padded(vout, 0, n);
    forall i | 0 <= i < n ensures p[i] == if i < |vout| then vout[i] else NULL_OUT {
      PaddedAt(vout, 0, n, i);
    }
    TrimmedMeaning(p);
    var t := Trimmed(p);
    assert forall i :: 0 <= i < |t| ==> t[i] == p[i];
    assert p[|vout| - 1] == vout[|vout| - 1];
    assert t != [] ==> t[|t| - 1] == p[|t| - 1];
  }

  // ---------- coins

  function CodeWord(c: Coins): nat
    requires !c.IsPruned()
  {
    var first, second := Live(c.vout, 0), Live(c.vout, 1);
    SomeLive(c);
    8 * (NonZero(c.vout, 0, Blocks(c.vout)) - (if first || second then 0 else 1))
    + (if c.fCoinBase then 1 else 0) + (if first then 2 else 0) + (if second then 4 else 0)
  }

  /** The source's assertion: something in a stored entry is unspent. */
  lemma SomeLive(c: Coins)
    requires !c.IsPruned()
    ensures Live(c.vout, 0) || Live(c.vout, 1) || NonZero(c.vout, 0, Blocks(c.vout)) > 0
  {
    var i :| 0 <= i < |c.vout| && !c.vout[i].IsNull();
    if i >= 2 {
      var b := (i - 2) / 8;
      assert Live(c.vout, i);
      FieldZero(c.vout, 2 + 8 * b, 8);
      NonZeroPositive(c.vout, 0, b + 1);
      MoreBlocks(c.vout, 0, b + 1, Blocks(c.vout));
    }
  }

  lemma {:induction false} MoreBlocks(vout: seq<TxOut>, from: nat, n: nat, n': nat)
    requires n <= n'
    ensures NonZero(vout, from, n) <= NonZero(vout, from, n')
    ensures (forall b :: n <= b < n' ==> MaskByte(vout, b) == 0) ==> NonZero(vout, from, n) == NonZero(vout, from, n')
    decreases n' - from
  {
    if from < n' {
      MoreBlocks(vout, from + 1, n, n');
    }
  }

  function Serialized(c: Coins): seq<Byte>
    requires !c.IsPruned() && c.nVersion >= 0 && c.nHeight >= 0
  {
    VarInt(c.nVersion) + VarInt(CodeWord(c)) + Mask(c.vout, 0, MaskSize(c.vout, Blocks(c.vout)))
    + OutsBytes(c.vout, 0) + VarInt(c.nHeight)
  }

  lemma ExampleNumbers()
    ensures VarInt(1) == [1] && VarInt(4) == [4] && VarInt(600) == [0x83, 0x58]
    ensures VarInt(203_998) == [0x8b, 0xb8, 0x5e] && Compressed(600 * COIN) == 600
  {
    assert Digits(1592, true) == [0x8b, 0xb8];
    CompressDecompress(600);
    assert Pow10(9) == 1_000_000_000;
    hide Compressed;
  }

  /** The example of the format's documentation: version 1, only the second output, of 600 coins, height 203998. */
  lemma DocumentedExample(script: Script)
    ensures var c := Coins(false, [NULL_OUT, TxOut(600 * COIN, script)], 203_998, 1);
            !c.IsPruned() && Serialized(c) == [0x01, 0x04, 0x83, 0x58] + ScriptBytes(script) + [0x8b, 0xb8, 0x5e]
  {
    hide VarInt, Compressed, ScriptBytes;
    var o := TxOut(600 * COIN, script);
    var c := Coins(false, [NULL_OUT, o], 203_998, 1);
    assert !c.vout[1].IsNull();
    assert CodeWord(c) == 4;
    ExampleNumbers();
    hide CodeWord;
    assert OutsBytes(c.vout, 2) == [] && OutsBytes(c.vout, 1) == OutBytes(o) + [];
  }

  function MaskCode(nCode: nat): nat {
    nCode / 8 + if nCode / 2 % 4 != 0 then 0 else 1
  }

  function Unserialized(s: seq<Byte>): Read<Coins> {
    var version := ReadVarInt(s);
    if version.Failed? then Failed
    else
      var code := ReadVarInt(version.rest);
      if code.Failed? then Failed
      else
        var n := code.value;
        var avail := ReadMask(code.rest, MaskCode(n), [n / 2 % 2 == 1, n / 4 % 2 == 1]);
        if avail.Failed? then Failed
        else
          var outs := ReadOuts(avail.rest, avail.value);
          if outs.Failed? then Failed
          else
            var height := ReadVarInt(outs.rest);
            if height.Failed? then Failed
            else Got(Coins(n % 2 == 1, Trimmed(outs.value), height.value, version.value), height.rest)
  }

  /** What UpdateCoins and Spend leave in the database: cleaned up, not fully spent, valid live outputs. */
  predicate Storable(c: Coins) {
    && c.vout != [] && !c.vout[|c.vout| - 1].IsNull() && c.nVersion >= 0 && c.nHeight >= 0
    && forall i :: 0 <= i < |c.vout| ==> if c.vout[i].IsNull() then c.vout[i] == NULL_OUT else ValidOut(c.vout[i])
  }

  lemma CodeWordRead(c: Coins)
    requires !c.IsPruned()
    ensures var n := CodeWord(c);
            && (n % 2 == 1) == c.fCoinBase && (n / 2 % 2 == 1) == Live(c.vout, 0) && (n / 4 % 2 == 1) == Live(c.vout, 1)
            && MaskCode(n) == NonZero(c.vout, 0, Blocks(c.vout))
  {
    hide NonZero, Live;
    SomeLive(c);
  }

  /** The mask reaches the last output. */
  lemma MaskCovers(vout: seq<TxOut>)
    requires vout != [] && !vout[|vout| - 1].IsNull()
    ensures |vout| <= 2 + 8 * MaskSize(vout, Blocks(vout))
  {
    hide BitField, MaskSize;
    MaskSizeMeaning(vout, Blocks(vout));
    if |vout| > 2 {
      var b := (|vout| - 3) / 8;
      assert Live(vout, |vout| - 1) && b < Blocks(vout);
      FieldZero(vout, 2 + 8 * b, 8);
      assert MaskByte(vout, b) != 0;
    }
  }

  /** Reading back what was written gives the same coins and leaves what follows. */
  lemma CoinsRoundTrip(c: Coins, rest: seq<Byte>)
    requires Storable(c)
    ensures !c.IsPruned() && Unserialized(Serialized(c) + rest) == Got(c, rest)
  {
    assert !c.vout[|c.vout| - 1].IsNull();
    hide CodeWord, MaskByte, Mask, NonZero, MaskSize, ReadMask, MaskCode, Coins.IsPruned, Live;
    hide VarInt, ReadVarInt, OutsBytes, ReadOuts, Trimmed, Serialized, Unserialized, Blocks, ValidOut;
    var n, size := CodeWord(c), MaskSize(c.vout, Blocks(c.vout));
    var afterOuts := VarInt(c.nHeight) + rest;
    var afterMask := OutsBytes(c.vout, 0) + afterOuts;
    var afterCode := Mask(c.vout, 0, size) + afterMask;
    CodeWordRead(c);
    var avail, outs := OutputsRead(c, afterOuts);
    VarIntRoundTrip(c.nVersion, VarInt(n) + afterCode);
    VarIntRoundTrip(n, afterCode);
    VarIntRoundTrip(c.nHeight, rest);
    SerializedParts(c, n, size, rest);
    Assembled(Serialized(c) + rest, VarInt(n) + afterCode, n, afterCode, avail, afterMask, outs, afterOuts, c, rest);
  }

  lemma OutputsRead(c: Coins, rest: seq<Byte>) returns (avail: seq<bool>, outs: seq<TxOut>)
    requires Storable(c)
    ensures var blocks := Blocks(c.vout);
            var afterMask := OutsBytes(c.vout, 0) + rest;
            && ReadMask(Mask(c.vout, 0, MaskSize(c.vout, blocks)) + afterMask, NonZero(c.vout, 0, blocks),
                        [Live(c.vout, 0), Live(c.vout, 1)]) == Got(avail, afterMask)
            && ReadOuts(afterMask, avail) == Got(outs, rest)
    ensures Trimmed(outs) == c.vout
  {
    hide MaskByte, Mask, NonZero, MaskSize, ReadMask, OutsBytes, ReadOuts, Padded, Trimmed, Blocks, ValidOut;
    var size, afterMask := MaskSize(c.vout, Blocks(c.vout)), OutsBytes(c.vout, 0) + rest;
    var front := [Live(c.vout, 0), Live(c.vout, 1)];
    MaskSizeMeaning(c.vout, Blocks(c.vout));
    MoreBlocks(c.vout, 0, size, Blocks(c.vout));
    MaskRead(c.vout, 0, size, afterMask, front);
    MaskCovers(c.vout);
    avail := ReadMask(Mask(c.vout, 0, size) + afterMask, NonZero(c.vout, 0, size), front).value;
    OutsRead(c.vout, 0, avail, rest);
    assert avail[0..] == avail;
    outs := Padded(c.vout, 0, |avail|);
    TrimPadded(c.vout, |avail|);
  }

  /** The five reads of Unserialize in a row. */
  lemma Assembled(s: seq<Byte>, s1: seq<Byte>, n: nat, s2: seq<Byte>, avail: seq<bool>, s3: seq<Byte>,
                  outs: seq<TxOut>, s4: seq<Byte>, c: Coins, rest: seq<Byte>)
    requires c.nVersion >= 0 && c.nHeight >= 0
    requires ReadVarInt(s) == Got(c.nVersion, s1) && ReadVarInt(s1) == Got(n, s2)
    requires ReadMask(s2, MaskCode(n), [n / 2 % 2 == 1, n / 4 % 2 == 1]) == Got(avail, s3)
    requires ReadOuts(s3, avail) == Got(outs, s4) && ReadVarInt(s4) == Got(c.nHeight, rest)
    requires (n % 2 == 1) == c.fCoinBase && Trimmed(outs) == c.vout
    ensures Unserialized(s) == Got(c, rest)
  {
  }

  lemma SerializedParts(c: Coins, n: nat, size: nat, rest: seq<Byte>)
    requires !c.IsPruned() && c.nVersion >= 0 && c.nHeight >= 0
    requires n == CodeWord(c) && size == MaskSize(c.vout, Blocks(c.vout))
    ensures Serialized(c) + rest ==
            VarInt(c.nVersion) +
            (VarInt(n) + (Mask(c.vout, 0, size) + (OutsBytes(c.vout, 0) + (VarInt(c.nHeight) + rest))))
  {
  }

  // ---------- the source's loops

  /** The number of bytes of the mask and how many of them are not zero. */
  method CalcMaskSize(vout: seq<TxOut>) returns (nBytes: nat, nNonzeroBytes: nat)
    ensures nBytes == MaskSize(vout, Blocks(vout)) && nNonzeroBytes == NonZero(vout, 0, Blocks(vout))
  {
    hide BitField;
    nBytes, nNonzeroBytes := 0, 0;
    var b := 0;
    while 2 + b * 8 < |vout|
      invariant 0 <= b <= Blocks(vout)
      invariant nBytes == MaskSize(vout, b) && nNonzeroBytes == NonZero(vout, 0, b)
    {
      var fZero, i := true, 0;
      while i < 8 && 2 + b * 8 + i < |vout|
        invariant 0 <= i <= 8
        invariant fZero == forall j :: 2 + b * 8 <= j < 2 + b * 8 + i ==> !Live(vout, j)
      {
        if !vout[2 + b * 8 + i].IsNull() {
          assert Live(vout, 2 + b * 8 + i);
          fZero := false;
        }
        i := i + 1;
      }
      FieldZero(vout, 2 + 8 * b, 8);
      assert fZero == (MaskByte(vout, b) == 0);
      NonZeroLast(vout, 0, b);
      if !fZero {
        nBytes := b + 1;
        nNonzeroBytes := nNonzeroBytes + 1;
      }
      b := b + 1;
    }
  }

  lemma {:induction false} NonZeroLast(vout: seq<TxOut>, from: nat, n: nat)
    requires from <= n
    ensures NonZero(vout, from, n + 1) == NonZero(vout, from, n) + if MaskByte(vout, n) != 0 then 1 else 0
    decreases n - from
  {
    if from < n {
      NonZeroLast(vout, from + 1, n);
    }
  }

  method Serialize(c: Coins) returns (s: seq<Byte>)
    requires !c.IsPruned() && c.nVersion >= 0 && c.nHeight >= 0
    ensures s == Serialized(c)
  {
    hide VarInt, BitField, OutBytes, MaskByte;
    var nMaskSize, nMaskCode := CalcMaskSize(c.vout);
    var fFirst := |c.vout| > 0 && !c.vout[0].IsNull();
    var fSecond := |c.vout| > 1 && !c.vout[1].IsNull();
    SomeLive(c);
    assert fFirst || fSecond || nMaskCode > 0;
    var nCode := 8 * (nMaskCode - (if fFirst || fSecond then 0 else 1)) + (if c.fCoinBase then 1 else 0)
                 + (if fFirst then 2 else 0) + (if fSecond then 4 else 0);
    s := WriteVarInt(c.nVersion);
    var code := WriteVarInt(nCode);
    s := s + code;
    ghost var header := s;
    var b := 0;
    while b < nMaskSize
      invariant 0 <= b <= nMaskSize
      invariant s + Mask(c.vout, b, nMaskSize) == header + Mask(c.vout, 0, nMaskSize)
    {
      var chAvail := AvailByte(c.vout, b);
      assert s + Mask(c.vout, b, nMaskSize) == s + [chAvail] + Mask(c.vout, b + 1, nMaskSize);
      s := s + [chAvail];
      b := b + 1;
    }
    assert s + Mask(c.vout, b, nMaskSize) == s;
    ghost var masked := s;
    var i := 0;
    while i < |c.vout|
      invariant 0 <= i <= |c.vout|
      invariant s + OutsBytes(c.vout, i) == masked + OutsBytes(c.vout, 0)
    {
      if !c.vout[i].IsNull() {
        Regroup(s, OutBytes(c.vout[i]), OutsBytes(c.vout, i + 1));
        s := s + OutBytes(c.vout[i]);
      } else {
        assert OutsBytes(c.vout, i) == OutsBytes(c.vout, i + 1);
      }
      i := i + 1;
    }
    assert s + OutsBytes(c.vout, i) == s;
    var height := WriteVarInt(c.nHeight);
    s := s + height;
  }

  /** chAvail |= 1 << i, for the live outputs of one group of eight. */
  method AvailByte(vout: seq<TxOut>, b: nat) returns (chAvail: Byte)
    ensures chAvail == MaskByte(vout, b)
  {
    hide BitField;
    var c: nat, i: nat, bit: nat := 0, 0, 1;
    assert bit * BitField(vout, 2 + b * 8, 8) == BitField(vout, 2 + b * 8, 8);
    while i < 8 && 2 + b * 8 + i < |vout|
      invariant 0 <= i <= 8
      invariant c + bit * BitField(vout, 2 + b * 8 + i, 8 - i) == MaskByte(vout, b)
    {
      BitStep(vout, 2 + b * 8 + i, 8 - i, bit);
      if !vout[2 + b * 8 + i].IsNull() {
        c := c + bit;
      }
      bit := 2 * bit;
      i := i + 1;
    }
    FieldZero(vout, 2 + b * 8 + i, 8 - i);
    return c;
  }

  lemma BitStep(vout: seq<TxOut>, i: nat, k: nat, bit: nat)
    requires k > 0
    ensures bit * BitField(vout, i, k) == (if Live(vout, i) then bit else 0) + 2 * bit * BitField(vout, i + 1, k - 1)
  {
    var f := BitField(vout, i + 1, k - 1);
    assert bit * (2 * f) == 2 * bit * f && bit * (1 + 2 * f) == bit + 2 * bit * f;
  }

  method GetSerializeSize(c: Coins) returns (nSize: nat)
    requires !c.IsPruned() && c.nVersion >= 0 && c.nHeight >= 0
    ensures nSize == |Serialized(c)|
  {
    hide BitField, OutBytes, VarInt;
    var nMaskSize, nMaskCode := CalcMaskSize(c.vout);
    var fFirst := |c.vout| > 0 && !c.vout[0].IsNull();
    var fSecond := |c.vout| > 1 && !c.vout[1].IsNull();
    SomeLive(c);
    assert fFirst || fSecond || nMaskCode > 0;
    var nCode := 8 * (nMaskCode - (if fFirst || fSecond then 0 else 1)) + (if c.fCoinBase then 1 else 0)
                 + (if fFirst then 2 else 0) + (if fSecond then 4 else 0);
    assert nCode == CodeWord(c);
    SizeOfVarInt(c.nVersion);
    SizeOfVarInt(nCode);
    SizeOfVarInt(c.nHeight);
    nSize := GetSizeOfVarInt(c.nVersion) + GetSizeOfVarInt(nCode) + nMaskSize;
    MaskLength(c.vout, 0, nMaskSize);
    ghost var header := nSize;
    var i := 0;
    while i < |c.vout|
      invariant 0 <= i <= |c.vout|
      invariant nSize + |OutsBytes(c.vout, i)| == header + |OutsBytes(c.vout, 0)|
    {
      if !c.vout[i].IsNull() {
        nSize := nSize + |OutBytes(c.vout[i])|;
      }
      i := i + 1;
    }
    nSize := nSize + GetSizeOfVarInt(c.nHeight);
  }

  lemma SizeOfVarInt(n: nat)
    ensures |VarInt(n)| == GetSizeOfVarInt(n)
  {
    VarIntSize(n, false);
  }

  lemma {:induction false} MaskLength(vout: seq<TxOut>, from: nat, n: nat)
    requires from <= n
    ensures |Mask(vout, from, n)| == n - from
    decreases n - from
  {
    if from < n {
      MaskLength(vout, from + 1, n);
    }
  }

  method Unserialize(s: seq<Byte>) returns (r: Read<Coins>)
    ensures r == Unserialized(s)
  {
    hide ReadVarInt, ReadOut, Bits, Trimmed;
    var version := ReadVarIntBytes(s);
    if version.Failed? {
      return Failed;
    }
    var code := ReadVarIntBytes(version.rest);
    if code.Failed? {
      return Failed;
    }
    var nCode := code.value;
    var avail := ReadAvail(code.rest, nCode / 8 + if nCode / 2 % 4 != 0 then 0 else 1,
                           [nCode / 2 % 2 == 1, nCode / 4 % 2 == 1]);
    if avail.Failed? {
      return Failed;
    }
    var outs := ReadVout(avail.rest, avail.value);
    if outs.Failed? {
      return Failed;
    }
    var height := ReadVarIntBytes(outs.rest);
    if height.Failed? {
      return Failed;
    }
    return Got(Coins(nCode % 2 == 1, Trimmed(outs.value), height.value, version.value), height.rest);
  }

  method ReadAvail(s: seq<Byte>, maskCode: nat, vAvail: seq<bool>) returns (r: Read<seq<bool>>)
    ensures r == ReadMask(s, maskCode, vAvail)
  {
    var rest, nMaskCode, avail := s, maskCode, vAvail;
    while nMaskCode > 0
      invariant ReadMask(s, maskCode, vAvail) == ReadMask(rest, nMaskCode, avail)
      decreases |rest|
    {
      if rest == [] {
        return Failed;
      }
      var chAvail := rest[0];
      rest := rest[1..];
      avail := avail + Bits(chAvail, 8);
      if chAvail != 0 {
        nMaskCode := nMaskCode - 1;
      }
    }
    return Got(avail, rest);
  }

  method ReadVout(s: seq<Byte>, vAvail: seq<bool>) returns (r: Read<seq<TxOut>>)
    ensures r == ReadOuts(s, vAvail)
  {
    hide ReadOut;
    var vout: seq<TxOut> := seq(|vAvail|, k => NULL_OUT);
    var rest, i := s, 0;
    assert vAvail[0..] == vAvail && vout[..0] == [];
    PrefixedNone(ReadOuts(s, vAvail));
    while i < |vAvail|
      invariant 0 <= i <= |vAvail| == |vout|
      invariant forall k :: i <= k < |vout| ==> vout[k] == NULL_OUT
      invariant ReadOuts(s, vAvail) == Prefixed(vout[..i], ReadOuts(rest, vAvail[i..]))
    {
      assert vAvail[i..][0] == vAvail[i] && vAvail[i..][1..] == vAvail[i + 1..];
      ghost var before := vout[..i];
      if vAvail[i] {
        var o := ReadOut(rest);
        if o.Failed? {
          return Failed;
        }
        vout := vout[i := o.value];
        rest := o.rest;
      }
      assert vout[..i + 1] == before + [vout[i]];
      PrefixedMore(before, vout[i], ReadOuts(rest, vAvail[i + 1..]));
      i := i + 1;
    }
    assert vAvail[i..] == [] && vout[..i] == vout && vout + [] == vout;
    return Got(vout, rest);
  }

  lemma PrefixedNone(r: Read<seq<TxOut>>)
    ensures Prefixed([], r) == r
  {
    if r.Got? {
      assert [] + r.value == r.value;
    }
  }

  lemma PrefixedMore(front: seq<TxOut>, o: TxOut, r: Read<seq<TxOut>>)
    ensures Prefixed(front + [o], r) == Prefixed(front, Prefixed([o], r))
  {
    if r.Got? {
      assert front + [o] + r.value == front + ([o] + r.value);
    }
  }

  function Prefixed(front: seq<TxOut>, r: Read<seq<TxOut>>): Read<seq<TxOut>> {
    if r.Failed? then Failed else Got(front + r.value, r.rest)
  }
}
