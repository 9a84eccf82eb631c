/** Signature operations and sizes: what the fields `sigOps` and `size` of a transaction stand for. */
module SigOps {
  import opened Basics
  import opened Transactions
  import opened Ledger
  import opened Streams

  const OP_PUSHDATA1: nat := 0x4c
  const OP_PUSHDATA2: nat := 0x4d
  const OP_PUSHDATA4: nat := 0x4e
  const OP_1: nat := 0x51
  const OP_16: nat := 0x60
  const OP_CHECKSIG: nat := 0xac
  const OP_CHECKSIGVERIFY: nat := 0xad
  const OP_CHECKMULTISIG: nat := 0xae
  const OP_CHECKMULTISIGVERIFY: nat := 0xaf
  const OP_INVALIDOPCODE: nat := 0xff

  /** The instruction at the front of a script and its length, or None when the script ends inside it. */
  function GetOp(s: Script): (r: Option<(nat, nat)>)
    ensures r.Some? ==> 0 < r.value.1 <= |s|
  {
    if s == [] then None
    else
      var opcode: nat := s[0];
      if opcode > OP_PUSHDATA4 then Some((opcode, 1))
      else
        var width := if opcode < OP_PUSHDATA1 then 0 else if opcode == OP_PUSHDATA1 then 1
                     else if opcode == OP_PUSHDATA2 then 2 else 4;
        if |s| - 1 < width then None
        else
          var nSize := if width == 0 then opcode else FromLe(s[1..1 + width]);
          if |s| - 1 - width < nSize then None else Some((opcode, 1 + width + nSize))
  }

  /** What one instruction counts for, given the one before it. */
  function OpCost(opcode: nat, fAccurate: bool, lastOpcode: nat): nat {
    if opcode == OP_CHECKSIG || opcode == OP_CHECKSIGVERIFY then 1
    else if opcode == OP_CHECKMULTISIG || opcode == OP_CHECKMULTISIGVERIFY then
      if fAccurate && OP_1 <= lastOpcode <= OP_16 then lastOpcode - (OP_1 - 1) else 20
    else 0
  }

  function SigOpsAfter(s: Script, fAccurate: bool, lastOpcode: nat): nat {
    match GetOp(s)
    case None => 0
    case Some((opcode, length)) =>
      OpCost(opcode, fAccurate, lastOpcode) + SigOpsAfter(s[length..], fAccurate, opcode)
  }

  /** The signature operations of a script, counted up to the first instruction that is cut short. */
  function ScriptSigOps(s: Script, fAccurate: bool): nat {
    SigOpsAfter(s, fAccurate, OP_INVALIDOPCODE)
  }

  method GetSigOpCount(s: Script, fAccurate: bool) returns (n: nat)
    ensures n == ScriptSigOps(s, fAccurate)
  {
    n := 0;
    var pc, lastOpcode := 0, OP_INVALIDOPCODE;
    while pc < |s|
      invariant pc <= |s| && n + SigOpsAfter(s[pc..], fAccurate, lastOpcode) == ScriptSigOps(s, fAccurate)
    {
      var op := GetOp(s[pc..]);
      if op.None? {
        break;
      }
      var (opcode, length) := op.value;
      assert s[pc..][length..] == s[pc + length..];
      n := n + OpCost(opcode, fAccurate, lastOpcode);
      pc, lastOpcode := pc + length, opcode;
    }
  }

  /** The accurate count is never above the legacy one, and neither exceeds 20 for each byte. */
  lemma {:induction false} SigOpsBounded(s: Script, last: nat, last': nat)
    ensures SigOpsAfter(s, true, last) <= SigOpsAfter(s, false, last') <= 20 * |s|
    decreases |s|
  {
    if GetOp(s).Some? {
      var (opcode, length) := GetOp(s).value;
      SigOpsBounded(s[length..], opcode, opcode);
    }
  }

  /** The bound is reached. */
  lemma {:induction false} MultisigOnly(n: nat, last: nat)
    ensures SigOpsAfter(seq(n, i => 0xae), false, last) == 20 * n
  {
    if n > 0 {
      var s: Script := seq(n, i => 0xae);
      assert s[1..] == seq(n - 1, i => 0xae);
      MultisigOnly(n - 1, OP_CHECKMULTISIG);
    }
  }

  /** Empty pushes count nothing. */
  lemma {:induction false} PushesOnly(n: nat, last: nat)
    ensures SigOpsAfter(seq(n, i => 0), false, last) == 0
  {
    hide FromLe;
    if n > 0 {
      var s: Script := seq(n, i => 0);
      assert s[1..] == seq(n - 1, i => 0);
      PushesOnly(n - 1, 0);
    }
  }

  // ---------- a script as the list of its instructions

  datatype Instruction = Instruction(opcode: Byte, data: Script)
  {
    /** Up to 0x4e an opcode pushes data, whose length it names or is followed by. */
    predicate Fits() {
      if opcode < 0x4c then |data| == opcode
      else if opcode == 0x4c then |data| < 0x100
      else if opcode == 0x4d then |data| < 0x1_0000
      else if opcode == 0x4e then |data| < 0x1_0000_0000
      else data == []
    }

    function Bytes(): Script {
      [opcode]
      + (if opcode == 0x4c then Le(|data|, 1) else if opcode == 0x4d then Le(|data|, 2)
         else if opcode == 0x4e then Le(|data|, 4) else [])
      + data
    }
  }

  function Spelled(code: seq<Instruction>): Script {
    if code == [] then [] else code[0].Bytes() + Spelled(code[1..])
  }

  /** CHECKSIG (0xac) and CHECKSIGVERIFY (0xad) count one; CHECKMULTISIG (0xae) and CHECKMULTISIGVERIFY (0xaf) count
      20, or the number pushed by an OP_1 (0x51) to OP_16 (0x60) just before them. */
  function Cost(code: seq<Instruction>, fAccurate: bool, k: nat): nat
    requires k < |code|
  {
    if code[k].opcode in {0xac, 0xad} then 1
    else if code[k].opcode !in {0xae, 0xaf} then 0
    else if fAccurate && k > 0 && 0x51 <= code[k - 1].opcode <= 0x60 then code[k - 1].opcode - 0x50
    else 20
  }

  function CostFrom(code: seq<Instruction>, fAccurate: bool, k: nat): nat
    requires k <= |code|
    decreases |code| - k
  {
    if k == |code| then 0 else Cost(code, fAccurate, k) + CostFrom(code, fAccurate, k + 1)
  }

  /** GetOp reads exactly the instruction a script starts with. */
  lemma GetOpReads(i: Instruction, rest: Script)
    requires i.Fits()
    ensures GetOp(i.Bytes() + rest) == Some((i.opcode as nat, |i.Bytes()|)) && (i.Bytes() + rest)[|i.Bytes()|..] == rest
  {
    hide Le, FromLe, Pow256;
    if 0x4c <= i.opcode <= 0x4e {
      LongPushReads(i, rest);
    }
  }

  lemma LongPushReads(i: Instruction, rest: Script)
    requires i.Fits() && 0x4c <= i.opcode <= 0x4e
    ensures GetOp(i.Bytes() + rest) == Some((i.opcode as nat, |i.Bytes()|))
  {
    var width := if i.opcode == 0x4c then 1 else if i.opcode == 0x4d then 2 else 4;
    assert |i.data| < Pow256(width) by {
      assert Pow256(1) == 0x100 && Pow256(2) == 0x1_0000 && Pow256(3) == 0x100_0000;
    }
    LeRoundTrip(|i.data|, width);
    hide Le, FromLe, Pow256, GetOp;
    PushReads(i.opcode, Le(|i.data|, width), i.data, rest);
    assert i.Bytes() == [i.opcode] + Le(|i.data|, width) + i.data;
  }

  lemma PushReads(opcode: Byte, size: Script, data: Script, rest: Script)
    requires 0x4c <= opcode <= 0x4e && |size| == (if opcode == 0x4c then 1 else if opcode == 0x4d then 2 else 4)
    requires FromLe(size) == |data|
    ensures GetOp([opcode] + size + data + rest) == Some((opcode as nat, 1 + |size| + |data|))
  {
    hide FromLe;
    var s := [opcode] + size + data + rest;
    assert s[1..1 + |size|] == size;
  }

  /** What GetOp reads is an instruction. */
  lemma GetOpIsInstruction(s: Script) returns (i: Instruction)
    requires GetOp(s).Some?
    ensures i.Fits() && |i.Bytes()| <= |s| && i.Bytes() == s[..|i.Bytes()|]
  {
    var opcode, length := s[0], GetOp(s).value.1;
    if opcode > 0x4e {
      return Instruction(opcode, []);
    }
    var width := if opcode < 0x4c then 0 else if opcode == 0x4c then 1 else if opcode == 0x4d then 2 else 4;
    i := Instruction(opcode, s[1 + width..length]);
    assert Pow256(1) == 0x100 && Pow256(2) == 0x1_0000 && Pow256(3) == 0x100_0000;
    LeBack(s[1..1 + width]);
    hide Le, FromLe, Pow256;
    assert width > 0 ==> |i.data| == FromLe(s[1..1 + width]);
    assert i.Bytes() == [opcode] + s[1..1 + width] + s[1 + width..length] == s[..length];
  }

  lemma {:induction false} LeBack(b: Script)
    ensures Le(FromLe(b), |b|) == b
  {
    if b != [] {
      LeBack(b[1..]);
    }
  }

  lemma {:induction false} CountFrom(code: seq<Instruction>, rest: Script, fAccurate: bool, k: nat)
    requires k <= |code| && (forall j :: 0 <= j < |code| ==> code[j].Fits()) && GetOp(rest).None?
    ensures SigOpsAfter(Spelled(code[k..]) + rest, fAccurate, if k == 0 then OP_INVALIDOPCODE else code[k - 1].opcode)
            == CostFrom(code, fAccurate, k)
    decreases |code| - k
  {
    hide GetOp, Instruction.Bytes, Instruction.Fits, OpCost, Cost;
    if k == |code| {
      assert Spelled(code[k..]) + rest == rest;
    } else {
      CountFrom(code, rest, fAccurate, k + 1);
      var after := Spelled(code[k + 1..]) + rest;
      SpelledStep(code, k);
      assert Spelled(code[k..]) + rest == code[k].Bytes() + after;
      OneOp(code[k], after, fAccurate, if k == 0 then OP_INVALIDOPCODE else code[k - 1].opcode);
      CostIs(code, fAccurate, k);
      hide SigOpsAfter, Spelled;
    }
  }

  lemma SpelledStep(code: seq<Instruction>, k: nat)
    requires k < |code|
    ensures Spelled(code[k..]) == code[k].Bytes() + Spelled(code[k + 1..])
  {
    assert code[k..][0] == code[k] && code[k..][1..] == code[k + 1..];
  }

  lemma CostIs(code: seq<Instruction>, fAccurate: bool, k: nat)
    requires k < |code|
    ensures OpCost(code[k].opcode, fAccurate, if k == 0 then OP_INVALIDOPCODE else code[k - 1].opcode)
            == Cost(code, fAccurate, k)
  {
  }

  lemma OneOp(i: Instruction, after: Script, fAccurate: bool, last: nat)
    requires i.Fits()
    ensures SigOpsAfter(i.Bytes() + after, fAccurate, last)
            == OpCost(i.opcode, fAccurate, last) + SigOpsAfter(after, fAccurate, i.opcode)
  {
    GetOpReads(i, after);
    hide GetOp, Instruction.Bytes, OpCost, Instruction.Fits;
  }

  /** The count of a script is the sum over its instructions, as far as it can be read as such. */
  lemma CountIsSum(code: seq<Instruction>, rest: Script, fAccurate: bool)
    requires (forall j :: 0 <= j < |code| ==> code[j].Fits())
    requires forall i: Instruction :: i.Fits() ==> !(i.Bytes() <= rest)
    ensures ScriptSigOps(Spelled(code) + rest, fAccurate) == CostFrom(code, fAccurate, 0)
  {
    if GetOp(rest).Some? {
      var i := GetOpIsInstruction(rest);
    }
    CountFrom(code, rest, fAccurate, 0);
    assert code[0..] == code;
  }

  lemma NoneStarts(i: Instruction, s: Script)
    requires i.Fits() && i.Bytes() <= s
    ensures GetOp(s).Some?
  {
    GetOpReads(i, s[|i.Bytes()|..]);
    assert s == i.Bytes() + s[|i.Bytes()|..];
    hide GetOp;
  }

  /** Every script is a list of instructions and a rest that starts with none. */
  lemma {:induction false} ScriptSplits(s: Script) returns (code: seq<Instruction>, rest: Script)
    ensures s == Spelled(code) + rest && forall j :: 0 <= j < |code| ==> code[j].Fits()
    ensures forall i: Instruction :: i.Fits() ==> !(i.Bytes() <= rest)
    decreases |s|
  {
    if GetOp(s).None? {
      code, rest := [], s;
      forall i: Instruction | i.Fits() && i.Bytes() <= s ensures GetOp(s).Some? {
        NoneStarts(i, s);
      }
    } else {
      var i := GetOpIsInstruction(s);
      var tail;
      tail, rest := ScriptSplits(s[|i.Bytes()|..]);
      code := [i] + tail;
      assert code[1..] == tail;
      hide GetOp, Instruction.Fits, Instruction.Bytes;
    }
  }

  function InputSigOps(vin: seq<TxIn>): nat {
    if vin == [] then 0 else InputSigOps(vin[..|vin| - 1]) + ScriptSigOps(vin[|vin| - 1].scriptSig, false)
  }

  function OutputSigOps(vout: seq<TxOut>): nat {
    if vout == [] then 0 else OutputSigOps(vout[..|vout| - 1]) + ScriptSigOps(vout[|vout| - 1].scriptPubKey, false)
  }

  method GetLegacySigOpCount(tx: Tx) returns (nSigOps: nat)
    ensures nSigOps == InputSigOps(tx.vin) + OutputSigOps(tx.vout)
  {
    nSigOps := 0;
    for i := 0 to |tx.vin|
      invariant nSigOps == InputSigOps(tx.vin[..i])
    {
      var n := GetSigOpCount(tx.vin[i].scriptSig, false);
      nSigOps := nSigOps + n;
      assert tx.vin[..i + 1][..i] == tx.vin[..i];
    }
    assert tx.vin[..|tx.vin|] == tx.vin;
    for i := 0 to |tx.vout|
      invariant nSigOps == InputSigOps(tx.vin) + OutputSigOps(tx.vout[..i])
    {
      var n := GetSigOpCount(tx.vout[i].scriptPubKey, false);
      nSigOps := nSigOps + n;
      assert tx.vout[..i + 1][..i] == tx.vout[..i];
    }
    assert tx.vout[..|tx.vout|] == tx.vout;
  }

  // ---------- serialized sizes

  function InputSizes(vin: seq<TxIn>): nat {
    if vin == [] then 0 else InputSizes(vin[..|vin| - 1]) + 36 + |ScriptBytes(vin[|vin| - 1].scriptSig)| + 4
  }

  function OutputSizes(vout: seq<TxOut>): nat {
    if vout == [] then 0 else OutputSizes(vout[..|vout| - 1]) + 8 + |ScriptBytes(vout[|vout| - 1].scriptPubKey)|
  }

  /** Version, inputs, outputs and lock time. */
  function SerializedSize(tx: Tx): nat {
    4 + |CompactSize(|tx.vin|)| + InputSizes(tx.vin) + |CompactSize(|tx.vout|)| + OutputSizes(tx.vout) + 4
  }

  /** One input and one output. */
  lemma OneToOne(tx: Tx, i: TxIn, o: TxOut)
    requires tx.vin == [i] && tx.vout == [o]
    ensures SerializedSize(tx) == 58 + |ScriptBytes(i.scriptSig)| + |ScriptBytes(o.scriptPubKey)|
    ensures InputSigOps(tx.vin) + OutputSigOps(tx.vout)
            == ScriptSigOps(i.scriptSig, false) + ScriptSigOps(o.scriptPubKey, false)
  {
    hide ScriptBytes, ScriptSigOps;
    assert tx.vin[..0] == [] && tx.vout[..0] == [];
    assert InputSizes(tx.vin) == 40 + |ScriptBytes(i.scriptSig)|;
    assert OutputSizes(tx.vout) == 8 + |ScriptBytes(o.scriptPubKey)|;
    assert |CompactSize(1)| == 1;
  }
}
