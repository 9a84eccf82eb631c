/** Base58: byte strings as numbers written with 58 letters, with leading zero bytes kept as leading '1's. */
module Base58 {
  import opened Basics
  import opened Transactions

  const NUMBERS: string := "123456789"
  const UPPER: string := "ABCDEFGHJKLMNPQRSTUVWXYZ"
  const LOWER: string := "abcdefghijkmnopqrstuvwxyz"
  /** pszBase58 */
  const ALPHABET: string := NUMBERS + UPPER + LOWER

  // ---------- numerals

  predicate Base(base: nat) {
    base == 58 || base == 256
  }

  predicate Numerals(ds: seq<nat>, base: nat) {
    forall i :: 0 <= i < |ds| ==> ds[i] < base
  }

  /** The number that the digits spell, most significant first. */
  function Value(ds: seq<nat>, base: nat): nat {
    if ds == [] then 0 else Value(ds[..|ds| - 1], base) * base + ds[|ds| - 1]
  }

  /** The digits of a number, without leading zeros; none for zero. */
  function Numeral(n: nat, base: nat): (ds: seq<nat>)
    requires Base(base)
  {
    if n == 0 then [] else Numeral(n / base, base) + [n % base]
  }

  function Lead(ds: seq<nat>): (k: nat)
    ensures k <= |ds|
  {
    if ds == [] || ds[0] != 0 then 0 else 1 + Lead(ds[1..])
  }

  function Zeros(k: nat): (z: seq<nat>)
    ensures |z| == k && forall i :: 0 <= i < k ==> z[i] == 0
  {
    seq(k, i => 0)
  }

  /** The same number in another base, leading zeros kept one for one. */
  function Converted(ds: seq<nat>, from: nat, to: nat): seq<nat>
    requires Base(to)
  {
    Zeros(Lead(ds)) + Numeral(Value(ds, from), to)
  }

  lemma Digit(v: nat, base: nat, d: nat)
    requires Base(base) && d < base
    ensures (v * base + d) / base == v && (v * base + d) % base == d
  {
    if base == 58 {
      assert (v * 58 + d) / 58 == v;
    } else {
      assert (v * 256 + d) / 256 == v;
    }
  }

  lemma Positive(v: nat, base: nat)
    requires v > 0 && base > 0
    ensures v * base > 0
  {
  }

  lemma {:induction false} NumeralSpells(n: nat, base: nat)
    requires Base(base)
    ensures Numerals(Numeral(n, base), base) && Value(Numeral(n, base), base) == n
    ensures if n > 0 then Numeral(n, base) != [] && Numeral(n, base)[0] > 0 else Numeral(n, base) == []
  {
    if n > 0 {
      NumeralSpells(n / base, base);
      var front := Numeral(n / base, base);
      assert (front + [n % base])[..|front|] == front;
    }
  }

  lemma {:induction false} LeadMeaning(ds: seq<nat>)
    ensures forall i :: 0 <= i < Lead(ds) ==> ds[i] == 0
    ensures Lead(ds) < |ds| ==> ds[Lead(ds)] != 0
  {
    if ds != [] && ds[0] == 0 {
      LeadMeaning(ds[1..]);
    }
  }

  lemma {:induction false} LeadIs(ds: seq<nat>, k: nat)
    requires k <= |ds| && (forall i :: 0 <= i < k ==> ds[i] == 0) && (k < |ds| ==> ds[k] != 0)
    ensures Lead(ds) == k
  {
    if k > 0 {
      LeadIs(ds[1..], k - 1);
    }
  }

  lemma {:induction false} LeadingZerosAdd(k: nat, ds: seq<nat>, base: nat)
    ensures Value(Zeros(k) + ds, base) == Value(ds, base)
    decreases |ds|, k
  {
    var all := Zeros(k) + ds;
    if ds != [] {
      LeadingZerosAdd(k, ds[..|ds| - 1], base);
      assert all[..|all| - 1] == Zeros(k) + ds[..|ds| - 1];
    } else if k > 0 {
      LeadingZerosAdd(k - 1, ds, base);
      assert all[..|all| - 1] == Zeros(k - 1) + ds;
    }
  }

  lemma {:induction false} DigitsOf(ds: seq<nat>, base: nat)
    requires Base(base) && Numerals(ds, base) && (ds != [] ==> ds[0] != 0)
    ensures Numeral(Value(ds, base), base) == ds
    ensures ds != [] ==> Value(ds, base) > 0
  {
    if ds != [] {
      var front, last := ds[..|ds| - 1], ds[|ds| - 1];
      DigitsOf(front, base);
      Digit(Value(front, base), base, last);
      if front != [] {
        Positive(Value(front, base), base);
      }
      assert ds == front + [last];
    }
  }

  /** Converting there and back changes nothing. */
  lemma ConvertedBack(ds: seq<nat>, a: nat, b: nat)
    requires Base(a) && Base(b) && Numerals(ds, a)
    ensures Numerals(Converted(ds, a, b), b)
    ensures Converted(Converted(ds, a, b), b, a) == ds
  {
    hide Lead, Value, Numeral;
    var k, v := Lead(ds), Value(ds, a);
    var e := Converted(ds, a, b);
    NumeralSpells(v, b);
    LeadingZerosAdd(k, Numeral(v, b), b);
    LeadMeaning(ds);
    var tail := ds[k..];
    assert ds == Zeros(k) + tail;
    LeadingZerosAdd(k, tail, a);
    DigitsOf(tail, a);
    LeadIs(e, k);
  }

  // ---------- letters

  /** Position of a letter in the alphabet. */
  function Rank(c: char): int {
    if '1' <= c <= '9' then c as int - '1' as int
    else if 'A' <= c <= 'H' then c as int - 'A' as int + 9
    else if 'J' <= c <= 'N' then c as int - 'J' as int + 17
    else if 'P' <= c <= 'Z' then c as int - 'P' as int + 22
    else if 'a' <= c <= 'k' then c as int - 'a' as int + 33
    else if 'm' <= c <= 'z' then c as int - 'm' as int + 44
    else -1
  }

  lemma RankOfLetter(d: nat)
    requires d < 58
    ensures |ALPHABET| == 58 && Rank(ALPHABET[d]) == d
  {
    assert |NUMBERS| == 9 && |UPPER| == 24 && |LOWER| == 25;
    if d < 9 {
      RankOfNumber(d);
    } else if d < 33 {
      RankOfUpper(d - 9);
    } else {
      RankOfLower(d - 33);
    }
  }

  lemma RankOfNumber(d: nat)
    requires d < |NUMBERS|
    ensures Rank(NUMBERS[d]) == d
  {
  }

  lemma RankOfUpper(d: nat)
    requires d < |UPPER|
    ensures Rank(UPPER[d]) == d + 9
  {
  }

  lemma RankOfLower(d: nat)
    requires d < |LOWER|
    ensures Rank(LOWER[d]) == d + 33
  {
  }

  lemma LetterOfRank(c: char)
    requires Rank(c) >= 0
    ensures Rank(c) < 58 == |ALPHABET| && ALPHABET[Rank(c)] == c
  {
    RankOfLetter(Rank(c));
    assert c as int == ALPHABET[Rank(c)] as int;
  }

  /** strchr on the alphabet: the first position from i on, -1 if there is none. */
  function Strchr(c: char, i: nat): int
    requires i <= |ALPHABET|
    decreases |ALPHABET| - i
  {
    if i == |ALPHABET| then -1 else if ALPHABET[i] == c then i else Strchr(c, i + 1)
  }

  lemma {:induction false} StrchrIsRank(c: char, i: nat)
    requires i <= |ALPHABET| && (Rank(c) < 0 || i <= Rank(c))
    ensures Strchr(c, i) == if Rank(c) < 0 then -1 else Rank(c)
    decreases |ALPHABET| - i
  {
    RankOfLetter(0);
    if Rank(c) >= 0 {
      LetterOfRank(c);
    }
    hide Rank;
    if i < |ALPHABET| {
      RankOfLetter(i);
      if ALPHABET[i] != c {
        StrchrIsRank(c, i + 1);
      }
    }
  }

  function Letters(ds: seq<nat>): (s: string)
    requires Numerals(ds, 58)
    ensures |s| == |ds|
  {
    RankOfLetter(0);
    seq(|ds|, i requires 0 <= i < |ds| => ALPHABET[ds[i]])
  }

  predicate InAlphabet(s: string) {
    forall i :: 0 <= i < |s| ==> Rank(s[i]) >= 0
  }

  function Ranks(s: string): (ds: seq<nat>)
    requires InAlphabet(s)
    ensures |ds| == |s| && Numerals(ds, 58)
  {
    var ds := seq(|s|, i requires 0 <= i < |s| => Rank(s[i]) as nat);
    assert forall i :: 0 <= i < |s| ==> ds[i] < 58;
    ds
  }

  lemma RanksOfLetters(ds: seq<nat>)
    requires Numerals(ds, 58)
    ensures InAlphabet(Letters(ds)) && Ranks(Letters(ds)) == ds
  {
    var s := Letters(ds);
    forall i | 0 <= i < |s| ensures Rank(s[i]) == ds[i] {
      RankOfLetter(ds[i]);
    }
  }

  lemma LettersOfRanks(s: string)
    requires InAlphabet(s)
    ensures Letters(Ranks(s)) == s
  {
    forall i | 0 <= i < |s| ensures Letters(Ranks(s))[i] == s[i] {
      LetterOfRank(s[i]);
    }
  }

  // ---------- the codec

  lemma BytesAreNumerals(b: seq<Byte>)
    ensures Numerals(b, 256)
  {
  }

  function Encoded(b: seq<Byte>): string {
    BytesAreNumerals(b);
    ConvertedBack(b, 256, 58);
    Letters(Converted(b, 256, 58))
  }

  lemma Spelled(b: seq<Byte>, ds: seq<nat>, s: string)
    requires Converted(b, 256, 58) == ds && |s| == |ds|
    requires forall i :: 0 <= i < |ds| ==> ds[i] < |ALPHABET| && s[i] == ALPHABET[ds[i]]
    ensures Encoded(b) == s
  {
    BytesAreNumerals(b);
    ConvertedBack(b, 256, 58);
    hide Converted;
  }

  lemma AllZeros(k: nat)
    ensures Lead(Zeros(k)) == k && Value(Zeros(k), 256) == 0
  {
    if k > 0 {
      AllZeros(k - 1);
      assert Zeros(k)[1..] == Zeros(k - 1) && Zeros(k)[..k - 1] == Zeros(k - 1);
    }
  }

  /** Strings of the repository's test data: one byte, three, and leading zeros only. */
  lemma EncodedExamples(k: nat)
    ensures Encoded([0x61]) == "2g" && Encoded([0x62, 0x62, 0x62]) == "a3gV"
    ensures |Encoded(Zeros(k))| == k && forall i :: 0 <= i < k ==> Encoded(Zeros(k))[i] == '1'
  {
    ExampleNumerals();
    hide Converted, Encoded;
    SomeLetters();
    Spelled([0x61], [1, 39], "2g");
    Spelled([0x62, 0x62, 0x62], [33, 2, 39, 28], "a3gV");
    ZerosEncoded(k);
  }

  lemma SomeLetters()
    ensures |ALPHABET| == 58 && ALPHABET[0] == '1' && ALPHABET[1] == '2' && ALPHABET[2] == '3'
    ensures ALPHABET[28] == 'V' && ALPHABET[33] == 'a' && ALPHABET[39] == 'g'
  {
  }

  lemma ZerosEncoded(k: nat)
    ensures |Encoded(Zeros(k))| == k && forall i :: 0 <= i < k ==> Encoded(Zeros(k))[i] == '1'
  {
    AllZeros(k);
    assert Converted(Zeros(k), 256, 58) == Zeros(k);
    hide Converted, Encoded;
    SomeLetters();
    Spelled(Zeros(k), Zeros(k), seq(k, i => '1'));
  }

  lemma ExampleNumerals()
    ensures Converted([0x61], 256, 58) == [1, 39]
    ensures Converted([0x62, 0x62, 0x62], 256, 58) == [33, 2, 39, 28]
  {
    var b := [0x62, 0x62, 0x62];
    assert [0x61][..0] == [] && b[..2] == [0x62, 0x62] && [0x62, 0x62][..1] == [0x62] && [0x62][..0] == [];
    assert Value([0x61], 256) == 97 && Value(b, 256) == 6_447_714;
    assert Numeral(97, 58) == [1, 39];
    assert Numeral(6_447_714, 58) == [33, 2, 39, 28] by {
      assert Numeral(1916, 58) == [33, 2];
    }
    hide Value, Numeral;
  }

  predicate IsSpace(c: char) {
    c == ' ' || 9 <= c as int <= 13
  }

  function SkipSpace(s: string): string {
    if s != [] && IsSpace(s[0]) then SkipSpace(s[1..]) else s
  }

  /** The letters at the front of s. */
  function Word(s: string): (w: string)
    ensures w <= s && InAlphabet(w)
  {
    if s != [] && Rank(s[0]) >= 0 then [s[0]] + Word(s[1..]) else []
  }

  function ToBytes(ds: seq<nat>): seq<Byte>
    requires Numerals(ds, 256)
  {
    seq<Byte>(|ds|, i requires 0 <= i < |ds| => ds[i])
  }

  function WordBytes(w: string): seq<Byte>
    requires InAlphabet(w)
  {
    ConvertedBack(Ranks(w), 58, 256);
    ToBytes(Converted(Ranks(w), 58, 256))
  }

  /** Space, a word of letters, space, and nothing else. */
  function Decoded(psz: string): Option<seq<Byte>> {
    var s := SkipSpace(psz);
    var w := Word(s);
    if SkipSpace(s[|w|..]) == [] then Some(WordBytes(w)) else None
  }

  lemma {:induction false} WholeWord(s: string)
    requires InAlphabet(s)
    ensures SkipSpace(s) == s && Word(s) == s
  {
    if s != [] {
      assert Rank(s[0]) >= 0;
      assert InAlphabet(s[1..]);
      WholeWord(s[1..]);
      assert s == [s[0]] + s[1..];
    }
  }

  lemma DecodedWord(w: string)
    requires InAlphabet(w)
    ensures Decoded(w) == Some(WordBytes(w))
  {
    WholeWord(w);
    assert w[|w|..] == [];
  }

  /** Every byte string survives encoding, leading zeros included. */
  lemma DecodeEncode(b: seq<Byte>)
    ensures Decoded(Encoded(b)) == Some(b)
  {
    BytesAreNumerals(b);
    ConvertedBack(b, 256, 58);
    var ds := Converted(b, 256, 58);
    RanksOfLetters(ds);
    DecodedWord(Letters(ds));
    assert WordBytes(Letters(ds)) == b;
  }

  /** Every string of letters is the encoding of its decoding, so there is one string for each byte string. */
  lemma EncodeDecode(s: string)
    requires InAlphabet(s)
    ensures Decoded(s).Some? && Encoded(Decoded(s).value) == s
  {
    DecodedWord(s);
    ConvertedBack(Ranks(s), 58, 256);
    var b := WordBytes(s);
    assert b == Converted(Ranks(s), 58, 256);
    LettersOfRanks(s);
  }

  /** Nothing but space, tab, line feed, vertical tab, form feed and carriage return. */
  predicate Blank(s: string) {
    forall i :: 0 <= i < |s| ==> s[i] as int in {0x20, 0x09, 0x0a, 0x0b, 0x0c, 0x0d}
  }

  lemma {:induction false} SkipsBlank(s: string)
    ensures SkipSpace(s) == [] <==> Blank(s)
    ensures |SkipSpace(s)| <= |s| && s[|s| - |SkipSpace(s)|..] == SkipSpace(s)
    ensures Blank(s[..|s| - |SkipSpace(s)|])
  {
    if s != [] && IsSpace(s[0]) {
      SkipsBlank(s[1..]);
      var k := |s| - |SkipSpace(s)|;
      assert s[1..][k - 1..] == s[k..] && s[1..][..k - 1] == s[1..k];
      assert s[..k] == [s[0]] + s[1..k];
      assert s == [s[0]] + s[1..];
    }
  }

  lemma {:induction false} BlankSkipped(pre: string, s: string)
    requires Blank(pre) && (s == [] || !IsSpace(s[0]))
    ensures SkipSpace(pre + s) == s
  {
    if pre == [] {
      assert pre + s == s;
    } else {
      BlankSkipped(pre[1..], s);
      assert (pre + s)[1..] == pre[1..] + s;
    }
  }

  lemma {:induction false} WordThenBlank(w: string, post: string)
    requires InAlphabet(w) && Blank(post)
    ensures Word(w + post) == w
  {
    if w == [] {
      assert w + post == post;
      if post != [] {
        assert Rank(post[0]) < 0;
      }
    } else {
      assert Rank(w[0]) >= 0 && (w + post)[1..] == w[1..] + post;
      WordThenBlank(w[1..], post);
      assert w == [w[0]] + w[1..];
    }
  }

  /** Exactly the encoding of b with blanks around it decodes to b. */
  lemma DecodesExactly(psz: string, b: seq<Byte>)
    ensures Decoded(psz) == Some(b) <==>
            exists pre, post :: Blank(pre) && Blank(post) && psz == pre + Encoded(b) + post
  {
    if Decoded(psz) == Some(b) {
      var pre, post := SplitAround(psz, b);
    }
    if pre, post :| Blank(pre) && Blank(post) && psz == pre + Encoded(b) + post {
      BlanksAround(pre, b, post);
    }
    hide Decoded, Encoded, Blank;
  }

  lemma SplitAround(psz: string, b: seq<Byte>) returns (pre: string, post: string)
    requires Decoded(psz) == Some(b)
    ensures Blank(pre) && Blank(post) && psz == pre + Encoded(b) + post
  {
    hide SkipSpace, Word, Encoded, WordBytes, Blank, InAlphabet;
    var s := SkipSpace(psz);
    var w := Word(s);
    SkipsBlank(psz);
    SkipsBlank(s[|w|..]);
    assert Encoded(b) == w by {
      EncodeDecode(w);
      DecodedWord(w);
    }
    hide Decoded;
    pre, post := psz[..|psz| - |s|], s[|w|..];
    assert psz == pre + s && s == w + post;
  }

  lemma EncodedIsWord(b: seq<Byte>)
    ensures InAlphabet(Encoded(b)) && WordBytes(Encoded(b)) == b
  {
    BytesAreNumerals(b);
    ConvertedBack(b, 256, 58);
    RanksOfLetters(Converted(b, 256, 58));
    DecodeEncode(b);
    DecodedWord(Encoded(b));
  }

  lemma BlanksAround(pre: string, b: seq<Byte>, post: string)
    requires Blank(pre) && Blank(post)
    ensures Decoded(pre + Encoded(b) + post) == Some(b)
  {
    EncodedIsWord(b);
    hide Encoded, WordBytes, SkipSpace, Word, Rank;
    var w := Encoded(b);
    assert pre + w + post == pre + (w + post);
    SkipsBlank(post);
    WordThenBlank(w, post);
    if w != [] {
      LetterIsNoSpace(w[0]);
      BlankSkipped(pre, w + post);
      assert (w + post)[|w|..] == post;
    } else {
      BlankSkipped(pre + post, []);
      assert pre + (w + post) == pre + post + [] && w + [] == [];
      WordThenBlank(w, []);
      SkipsBlank([]);
    }
  }

  lemma LetterIsNoSpace(c: char)
    requires Rank(c) >= 0
    ensures !IsSpace(c)
  {
  }

  // ---------- with a checksum

  /** hash gives the first four bytes of the double hash. */
  function EncodedCheck(b: seq<Byte>, hash: seq<Byte> -> seq<Byte>): string {
    Encoded(b + hash(b))
  }

  function DecodedCheck(s: string, hash: seq<Byte> -> seq<Byte>): Option<seq<Byte>> {
    var v := Decoded(s);
    if v.None? || |v.value| < 4 then None
    else
      var n := |v.value| - 4;
      if hash(v.value[..n]) != v.value[n..] then None else Some(v.value[..n])
  }

  /** For any hash: decoding yields b exactly for the strings that decode to b with its checksum, among them b's own. */
  lemma CheckRoundTrip(b: seq<Byte>, s: string, hash: seq<Byte> -> seq<Byte>)
    requires forall x :: |hash(x)| == 4
    ensures DecodedCheck(EncodedCheck(b, hash), hash) == Some(b)
    ensures DecodedCheck(s, hash) == Some(b) <==> Decoded(s) == Some(b + hash(b))
  {
    hide Decoded, Encoded;
    DecodeEncode(b + hash(b));
    var v := b + hash(b);
    assert |hash(b)| == 4;
    assert v[..|v| - 4] == b && v[|v| - 4..] == hash(b);
    var d := Decoded(s);
    if d.Some? && |d.value| >= 4 {
      assert d.value == d.value[..|d.value| - 4] + d.value[|d.value| - 4..];
    }
  }

  // ---------- the source's number conversions and loops

  function Rev<T>(s: seq<T>): (r: seq<T>)
    ensures |r| == |s| && forall i :: 0 <= i < |s| ==> r[i] == s[|s| - 1 - i]
  {
    seq(|s|, i requires 0 <= i < |s| => s[|s| - 1 - i])
  }

  /** CBigNum::setvch: little-endian bytes whose top bit is a sign. */
  function SetVch(vch: seq<Byte>): int {
    if vch == [] then 0
    else
      var top := vch[|vch| - 1];
      if top < 0x80 then Value(Rev(vch), 256)
      else -(Value(Rev(vch[|vch| - 1 := top - 0x80]), 256) as int)
  }

  /** CBigNum::getvch of a number that is not negative: an extra byte keeps the top bit clear. */
  function GetVch(bn: nat): seq<Byte> {
    NumeralSpells(bn, 256);
    var le := Rev(ToBytes(Numeral(bn, 256)));
    if le != [] && le[|le| - 1] >= 0x80 then le + [0] else le
  }

  /** The top bit of the last byte is the sign. */
  lemma VchSign(vch: seq<Byte>)
    requires vch != [] && vch[|vch| - 1] < 0x80
    ensures SetVch(vch) >= 0 && SetVch(vch[|vch| - 1 := vch[|vch| - 1] + 0x80]) == -SetVch(vch)
  {
    var last := |vch| - 1;
    assert vch[last := vch[last] + 0x80][last := vch[last]] == vch;
  }

  /** The extra zero byte makes any byte string a number that is not negative, and getvch undoes setvch. */
  lemma VchRoundTrip(bn: nat)
    ensures SetVch(GetVch(bn)) == bn
  {
    NumeralSpells(bn, 256);
    var le := Rev(ToBytes(Numeral(bn, 256)));
    assert Rev(le) == Numeral(bn, 256);
    if le != [] && le[|le| - 1] >= 0x80 {
      assert Rev(le + [0]) == Zeros(1) + Rev(le);
      LeadingZerosAdd(1, Rev(le), 256);
    }
  }

  method EncodeBase58(b: seq<Byte>) returns (r: string)
    ensures r == Encoded(b)
  {
    hide Value, Numeral, Lead, Encoded, Rank, Letters, Converted;
    BytesAreNumerals(b);
    var vchTmp: seq<Byte> := Rev(b) + [0];
    var bn := SetVch(vchTmp);
    assert bn == Value(b, 256) by {
      assert Rev(vchTmp) == Zeros(1) + b;
      LeadingZerosAdd(1, b, 256);
    }
    var n: nat := bn;
    var digits: seq<nat> := [];
    NumeralSpells(n, 58);
    var str := "";
    RankOfLetter(0);
    while n > 0
      invariant Numerals(digits, 58) && Numerals(Numeral(n, 58), 58)
      invariant str == Rev(Letters(digits))
      invariant Numeral(n, 58) + digits == Numeral(bn, 58)
      decreases n
    {
      NumeralStep(n, 58);
      NumeralSpells(n / 58, 58);
      var c := n % 58;
      n := n / 58;
      LettersFront(c, digits);
      assert Numeral(n, 58) + ([c] + digits) == Numeral(n, 58) + [c] + digits;
      str := str + [ALPHABET[c]];
      digits := [c] + digits;
    }
    assert Numeral(n, 58) == [] by {
      NumeralSpells(n, 58);
    }
    assert digits == Numeral(bn, 58);
    str := AppendZeros(b, digits, str);
    EncodedIs(b);
    r := Rev(str);
  }

  /** One letter for each zero byte in front. */
  method AppendZeros(b: seq<Byte>, ghost digits: seq<nat>, str: string) returns (r: string)
    requires Numerals(digits, 58) && str == Rev(Letters(digits))
    ensures Numerals(Zeros(Lead(b)) + digits, 58) && r == Rev(Letters(Zeros(Lead(b)) + digits))
  {
    hide Value, Numeral, Lead, Letters, Rev;
    LeadMeaning(b);
    assert Zeros(0) + digits == digits;
    var p := 0;
    r := str;
    while p < |b| && b[p] == 0
      invariant 0 <= p <= Lead(b) <= |b|
      invariant Numerals(Zeros(p) + digits, 58) && r == Rev(Letters(Zeros(p) + digits))
    {
      ghost var ds := Zeros(p) + digits;
      assert Zeros(p + 1) + digits == [0] + ds;
      LettersFront(0, ds);
      r := r + [ALPHABET[0]];
      p := p + 1;
    }
  }

  lemma LettersFront(d: nat, ds: seq<nat>)
    requires d < 58 == |ALPHABET| && Numerals(ds, 58)
    ensures Numerals([d] + ds, 58) && Rev(Letters([d] + ds)) == Rev(Letters(ds)) + [ALPHABET[d]]
  {
  }

  lemma EncodedIs(b: seq<Byte>)
    ensures var ds := Zeros(Lead(b)) + Numeral(Value(b, 256), 58);
            Numerals(ds, 58) && Encoded(b) == Letters(ds)
  {
    BytesAreNumerals(b);
    ConvertedBack(b, 256, 58);
  }

  lemma NumeralStep(n: nat, base: nat)
    requires Base(base) && n > 0
    ensures n / base < n && n % base < base && Numeral(n, base) == Numeral(n / base, base) + [n % base]
  {
    if base == 58 {
      assert n / 58 < n;
    } else {
      assert n / 256 < n;
    }
  }

  method SkipLeading(s: string) returns (r: string)
    ensures r == SkipSpace(s)
  {
    r := s;
    while r != [] && IsSpace(r[0])
      invariant SkipSpace(r) == SkipSpace(s)
      decreases |r|
    {
      r := r[1..];
    }
  }

  lemma {:induction false} WordStops(s: string)
    ensures |Word(s)| < |s| ==> Rank(s[|Word(s)|]) < 0
  {
    if s != [] && Rank(s[0]) >= 0 {
      WordStops(s[1..]);
    }
  }

  lemma WordEnds(s: string, p: nat)
    requires p <= |Word(s)| && p < |s|
    ensures Rank(s[p]) >= 0 <==> p < |Word(s)|
    ensures p < |Word(s)| ==> Rank(s[p]) == Ranks(Word(s))[p]
  {
    WordStops(s);
    if p < |Word(s)| {
      assert Word(s)[p] == s[p];
    }
  }

  lemma ValueNone(ds: seq<nat>)
    requires |ds| == 0
    ensures Value(ds, 58) == 0
  {
  }

  lemma ValueStep(ds: seq<nat>, d: nat)
    ensures Value(ds + [d], 58) == Value(ds, 58) * 58 + d
  {
    assert (ds + [d])[..|ds|] == ds;
  }

  method DecodeBase58(psz: string) returns (r: Option<seq<Byte>>)
    ensures r == Decoded(psz)
  {
    hide Value, Numeral, Lead, Rank, Word, WordBytes;
    var s := SkipLeading(psz);
    var bn: nat, p := 0, 0;
    ghost var w := Word(s);
    ValueNone(Ranks(w)[..0]);
    while p < |s|
      invariant 0 <= p <= |w| && bn == Value(Ranks(w)[..p], 58)
    {
      var p1 := Strchr(s[p], 0);
      StrchrIsRank(s[p], 0);
      WordEnds(s, p);
      if p1 < 0 {
        var tail := SkipLeading(s[p..]);
        if tail != [] {
          return None;
        }
        break;
      }
      ValueStep(Ranks(w)[..p], p1);
      assert Ranks(w)[..p + 1] == Ranks(w)[..p] + [p1];
      bn := bn * 58 + p1;
      p := p + 1;
    }
    if p == |s| {
      assert s[|w|..] == [];
    }
    assert p == |w| && Ranks(w)[..p] == Ranks(w);
    var bytes := Restore(s, bn);
    return Some(bytes);
  }

  /** From the number back to bytes: the sign byte comes off, one zero byte goes on for each leading '1'. */
  method Restore(s: string, bn: nat) returns (vchRet: seq<Byte>)
    requires bn == Value(Ranks(Word(s)), 58)
    ensures vchRet == WordBytes(Word(s))
  {
    hide Value, Numeral, Lead, Rank, Ranks, Word, WordBytes, GetVch, ToBytes, Numerals, Rev;
    var vchTmp := GetVch(bn);
    TrimmedSign(bn);
    if |vchTmp| >= 2 && vchTmp[|vchTmp| - 1] == 0 && vchTmp[|vchTmp| - 2] >= 0x80 {
      vchTmp := vchTmp[..|vchTmp| - 1];
    }
    var nLeadingZeros := CountOnes(s);
    vchRet := seq(nLeadingZeros + |vchTmp|, i => 0);
    vchRet := vchRet[..nLeadingZeros] + Rev(vchTmp);
    WordBytesIs(Word(s), vchRet, vchTmp);
  }

  method CountOnes(s: string) returns (nLeadingZeros: nat)
    ensures nLeadingZeros == Lead(Ranks(Word(s)))
  {
    hide Value, Numeral, Lead, Word, Rank;
    nLeadingZeros := 0;
    ghost var w := Ranks(Word(s));
    LeadMeaning(w);
    RankOfLetter(0);
    while nLeadingZeros < |s| && s[nLeadingZeros] == ALPHABET[0]
      invariant 0 <= nLeadingZeros <= Lead(w) <= |w|
    {
      WordEnds(s, nLeadingZeros);
      nLeadingZeros := nLeadingZeros + 1;
    }
    if nLeadingZeros < Lead(w) {
      WordEnds(s, nLeadingZeros);
      LetterOfRank(s[nLeadingZeros]);
    }
  }

  lemma WordBytesIs(w: string, b: seq<Byte>, le: seq<Byte>)
    requires InAlphabet(w)
    requires b == Zeros(Lead(Ranks(w))) + Rev(le)
    requires Numerals(Numeral(Value(Ranks(w), 58), 256), 256)
    requires le == Rev(ToBytes(Numeral(Value(Ranks(w), 58), 256)))
    ensures b == WordBytes(w)
  {
    hide Value, Numeral, Lead, Ranks;
    ConvertedBack(Ranks(w), 58, 256);
  }

  /** getvch's extra byte is there exactly when the trim finds it: a numeral has no leading zero of its own. */
  lemma TrimmedSign(bn: nat)
    ensures Numerals(Numeral(bn, 256), 256)
    ensures var le := Rev(ToBytes(Numeral(bn, 256)));
            var v := GetVch(bn);
            var trim := |v| >= 2 && v[|v| - 1] == 0 && v[|v| - 2] >= 0x80;
            (if trim then v[..|v| - 1] else v) == le
  {
    hide Numeral;
    NumeralSpells(bn, 256);
    var le := Rev(ToBytes(Numeral(bn, 256)));
    assert le != [] ==> le[|le| - 1] == Numeral(bn, 256)[0];
  }
}
