/** Byte streams: little-endian integers, compact sizes and the variable-length integers of serialize.h. */
module Streams {
  import opened Transactions

  /** What a read from a stream yields: a value and the bytes after it, or the exception of a failed read. */
  datatype Read<T> = Failed | Got(value: T, rest: seq<Byte>)

  // ---------- fixed width

  function Pow256(k: nat): (r: nat)
    ensures r > 0
  {
    if k == 0 then 1 else 256 * Pow256(k - 1)
  }

  function Le(n: nat, width: nat): (b: seq<Byte>)
    ensures |b| == width
  {
    if width == 0 then [] else [n % 256] + Le(n / 256, width - 1)
  }

  function FromLe(b: seq<Byte>): (n: nat)
    ensures n < Pow256(|b|)
  {
    if b == [] then 0 else (b[0] as int) + 256 * FromLe(b[1..])
  }

  lemma {:induction false} LeRoundTrip(n: nat, width: nat)
    requires n < Pow256(width)
    ensures FromLe(Le(n, width)) == n
  {
    if width > 0 {
      LeRoundTrip(n / 256, width - 1);
    }
  }

  // ---------- compact sizes

  const MAX_SIZE: int := 0x0200_0000

  function CompactSize(n: nat): seq<Byte> {
    if n < 253 then [n]
    else if n <= 0xFFFF then [253] + Le(n, 2)
    else if n <= 0xFFFF_FFFF then [254] + Le(n, 4)
    else [255] + Le(n, 8)
  }

  function ReadFixed(s: seq<Byte>, width: nat): Read<nat> {
    if |s| < width then Failed else Got(FromLe(s[..width]), s[width..])
  }

  function ReadCompactSize(s: seq<Byte>): Read<nat> {
    if s == [] then Failed
    else
      var r := if s[0] < 253 then Got(s[0], s[1..])
               else ReadFixed(s[1..], if s[0] == 253 then 2 else if s[0] == 254 then 4 else 8);
      if r.Failed? || r.value > MAX_SIZE then Failed else r
  }

  lemma FixedRoundTrip(n: nat, width: nat, rest: seq<Byte>)
    requires n < Pow256(width)
    ensures ReadFixed(Le(n, width) + rest, width) == Got(n, rest)
  {
    LeRoundTrip(n, width);
    hide Le, FromLe;
    var s := Le(n, width) + rest;
    assert s[..width] == Le(n, width) && s[width..] == rest;
  }

  lemma CompactSizeRoundTrip(n: nat, rest: seq<Byte>)
    requires n <= MAX_SIZE
    ensures ReadCompactSize(CompactSize(n) + rest) == Got(n, rest)
  {
    assert Pow256(2) == 0x1_0000 && Pow256(4) == 0x1_0000_0000 by {
      assert Pow256(1) == 256 && Pow256(3) == 0x100_0000;
    }
    hide Le, Pow256, ReadFixed;
    var s := CompactSize(n) + rest;
    if n < 253 {
      assert s[1..] == rest;
    } else {
      var width := if n <= 0xFFFF then 2 else 4;
      FixedRoundTrip(n, width, rest);
      assert s[1..] == Le(n, width) + rest;
    }
  }

  // ---------- scripts, as byte vectors with their size in front

  function ScriptBytes(s: Script): seq<Byte> {
    CompactSize(|s|) + s
  }

  function ReadScript(s: seq<Byte>): Read<Script> {
    var size := ReadCompactSize(s);
    if size.Failed? || |size.rest| < size.value then Failed
    else Got(size.rest[..size.value], size.rest[size.value..])
  }

  lemma ScriptRoundTrip(script: Script, rest: seq<Byte>)
    requires |script| <= MAX_SIZE
    ensures ReadScript(ScriptBytes(script) + rest) == Got(script, rest)
  {
    CompactSizeRoundTrip(|script|, script + rest);
    assert ScriptBytes(script) + rest == CompactSize(|script|) + (script + rest);
  }

  // ---------- variable-length integers

  /** The digits of n, most significant first; all but the last of the number carry the continuation bit. */
  function Digits(n: nat, more: bool): (s: seq<Byte>)
    ensures s != []
  {
    var low := n % 0x80 + if more then 0x80 else 0;
    if n <= 0x7F then [low] else Digits(n / 0x80 - 1, true) + [low]
  }

  function VarInt(n: nat): seq<Byte> {
    Digits(n, false)
  }

  /** The numbers of the source's table. For 16511 and 65535 the code writes other bytes than the table gives. */
  lemma VarIntTable()
    ensures VarInt(0) == [0x00] && VarInt(1) == [0x01] && VarInt(127) == [0x7F] && VarInt(128) == [0x80, 0x00]
    ensures VarInt(255) == [0x80, 0x7F] && VarInt(256) == [0x81, 0x00] && VarInt(16383) == [0xFE, 0x7F]
    ensures VarInt(16384) == [0xFF, 0x00]
    ensures VarInt(16511) == [0xFF, 0x7F] && VarInt(65535) == [0x82, 0xFE, 0x7F]
    ensures VarInt(0x1_0000_0000) == [0x8E, 0xFE, 0xFE, 0xFF, 0x00]
  {
    assert Digits(510, true) == [0x82, 0xFE];
    LargeVarInt();
  }

  lemma LargeVarInt()
    ensures VarInt(0x1_0000_0000) == [0x8E, 0xFE, 0xFE, 0xFF, 0x00]
  {
    assert Digits(262_142, true) == [0x8E, 0xFE, 0xFE] by {
      assert Digits(2046, true) == [0x8E, 0xFE];
    }
  }

  function GetSizeOfVarInt(n: nat): nat {
    if n <= 0x7F then 1 else 1 + GetSizeOfVarInt(n / 0x80 - 1)
  }

  /** The reading loop with `n` accumulated so far. */
  function ReadDigits(s: seq<Byte>, n: nat): Read<nat> {
    if s == [] then Failed
    else
      var next := n * 0x80 + s[0] as int % 0x80;
      if s[0] >= 0x80 then ReadDigits(s[1..], next + 1) else Got(next, s[1..])
  }

  function ReadVarInt(s: seq<Byte>): Read<nat> {
    ReadDigits(s, 0)
  }

  lemma LowDigit(n: nat, low: nat)
    requires low == n % 0x80 || low == n % 0x80 + 0x80
    ensures n / 0x80 * 0x80 + low % 0x80 == n
  {
  }

  lemma OneDigit(b: Byte, rest: seq<Byte>, n: nat)
    ensures var next := n * 0x80 + b as int % 0x80;
            ReadDigits([b] + rest, n) == if b >= 0x80 then ReadDigits(rest, next + 1) else Got(next, rest)
  {
    assert ([b] + rest)[1..] == rest;
  }

  lemma {:induction false} DigitsRead(n: nat, more: bool, rest: seq<Byte>)
    ensures ReadDigits(Digits(n, more) + rest, 0) == if more then ReadDigits(rest, n + 1) else Got(n, rest)
  {
    hide ReadDigits;
    var low: Byte := n % 0x80 + if more then 0x80 else 0;
    var tail := [low] + rest;
    var high: nat := n / 0x80;
    OneDigit(low, rest, high);
    LowDigit(n, low);
    if n > 0x7F {
      DigitsRead(high - 1, true, tail);
      assert Digits(n, more) == Digits(high - 1, true) + [low];
      assert Digits(high - 1, true) + [low] + rest == Digits(high - 1, true) + tail;
    }
  }

  lemma VarIntRoundTrip(n: nat, rest: seq<Byte>)
    ensures ReadVarInt(VarInt(n) + rest) == Got(n, rest)
  {
    DigitsRead(n, false, rest);
  }

  lemma {:induction false} VarIntSize(n: nat, more: bool)
    ensures |Digits(n, more)| == GetSizeOfVarInt(n)
  {
    if n > 0x7F {
      VarIntSize(n / 0x80 - 1, true);
    }
  }

  /** What has been read so far, spelled again. */
  function Spelled(n: nat): seq<Byte> {
    if n == 0 then [] else Digits(n - 1, true)
  }

  lemma {:induction false} ReadSpells(s: seq<Byte>, n: nat)
    requires ReadDigits(s, n).Got?
    ensures Spelled(n) + s == VarInt(ReadDigits(s, n).value) + ReadDigits(s, n).rest
  {
    var next := n * 0x80 + s[0] as int % 0x80;
    assert s == [s[0]] + s[1..];
    assert next / 0x80 == n && next % 0x80 == s[0] as int % 0x80;
    if s[0] >= 0x80 {
      ReadSpells(s[1..], next + 1);
      assert Spelled(next + 1) == Spelled(n) + [s[0]];
    } else {
      assert VarInt(next) == Spelled(n) + [s[0]];
    }
    assert Spelled(n) + [s[0]] + s[1..] == Spelled(n) + ([s[0]] + s[1..]);
  }

  /** No second spelling: whatever bytes read as n are the ones written for n. */
  lemma VarIntUnique(s: seq<Byte>)
    requires ReadVarInt(s).Got?
    ensures s == VarInt(ReadVarInt(s).value) + ReadVarInt(s).rest
  {
    ReadSpells(s, 0);
    assert [] + s == s;
  }

  /** The digits are produced last first into a buffer and written out from its end. */
  method WriteVarInt(n: nat) returns (s: seq<Byte>)
    ensures s == VarInt(n)
  {
    var tmp: seq<Byte>, m := [], n;
    while true
      invariant VarInt(n) == Digits(m, |tmp| > 0) + Reversed(tmp)
      decreases m
    {
      var digit: Byte := m % 0x80 + if |tmp| > 0 then 0x80 else 0;
      ReversedPush(tmp, digit);
      ghost var more, was := |tmp| > 0, Reversed(tmp);
      tmp := tmp + [digit];
      if m <= 0x7F {
        assert Digits(m, more) == [digit];
        break;
      }
      assert Digits(m, more) + was == Digits(m / 0x80 - 1, true) + ([digit] + was);
      m := m / 0x80 - 1;
    }
    assert VarInt(n) == Reversed(tmp);
    s := WriteBackwards(tmp);
  }

  /** The buffer from its end. */
  method WriteBackwards(tmp: seq<Byte>) returns (s: seq<Byte>)
    ensures s == Reversed(tmp)
  {
    s := [];
    var len := |tmp|;
    assert tmp[..len] == tmp;
    while len > 0
      invariant 0 <= len <= |tmp| && s + Reversed(tmp[..len]) == Reversed(tmp)
    {
      len := len - 1;
      ReversedPush(tmp[..len], tmp[len]);
      assert tmp[..len + 1] == tmp[..len] + [tmp[len]];
      s := s + [tmp[len]];
    }
  }

  function Reversed(s: seq<Byte>): seq<Byte> {
    if s == [] then [] else Reversed(s[1..]) + [s[0]]
  }

  lemma {:induction false} ReversedPush(s: seq<Byte>, b: Byte)
    ensures Reversed(s + [b]) == [b] + Reversed(s)
  {
    if s != [] {
      ReversedPush(s[1..], b);
      assert (s + [b])[1..] == s[1..] + [b];
    }
  }

  method ReadVarIntBytes(s: seq<Byte>) returns (r: Read<nat>)
    ensures r == ReadVarInt(s)
  {
    var n: nat, i := 0, 0;
    while i < |s|
      invariant 0 <= i <= |s| && ReadVarInt(s) == ReadDigits(s[i..], n)
    {
      var chData := s[i];
      i := i + 1;
      n := n * 0x80 + chData % 0x80;
      if chData >= 0x80 {
        n := n + 1;
      } else {
        return Got(n, s[i..]);
      }
    }
    return Failed;
  }
}
