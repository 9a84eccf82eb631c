/** The compact form of difficulty targets: a size in bytes and a 23-bit mantissa. */
module CompactNumbers {
  import opened Streams

  const SIGN_BIT: int := 0x80_0000

  /** BN_num_bytes */
  function NumBytes(n: nat): nat {
    if n == 0 then 0 else 1 + NumBytes(n / 256)
  }

  function SizeOf(c: nat): nat {
    c / 0x100_0000
  }

  function WordOf(c: nat): nat {
    c % SIGN_BIT
  }

  function ShiftUp(m: nat, k: nat): nat {
    m * Pow256(k)
  }

  function ShiftDown(m: nat, k: nat): nat {
    QuotientSign(m, Pow256(k));
    m / Pow256(k)
  }

  lemma QuotientSign(n: nat, p: nat)
    requires p > 0
    ensures n / p >= 0
  {
  }

  /** CBigNum::SetCompact */
  function SetCompact(nCompact: nat): int {
    var nSize, nWord := SizeOf(nCompact), WordOf(nCompact);
    var n := if nSize <= 3 then ShiftDown(nWord, 3 - nSize) else ShiftUp(nWord, nSize - 3);
    if nCompact / SIGN_BIT % 2 == 1 then -(n as int) else n
  }

  /** Size and mantissa in one word; a mantissa that reaches the sign bit moves one byte down. */
  function Pack(c: nat, nSize: nat): nat {
    if c / SIGN_BIT % 2 == 1 then c / 256 + (nSize + 1) * 0x100_0000 else c + nSize * 0x100_0000
  }

  /** CBigNum::GetCompact, for numbers of at most 254 bytes. */
  function GetCompact(n: int): nat {
    var m: nat := if n < 0 then -n else n;
    var nSize := NumBytes(m);
    var c := if nSize <= 3 then ShiftUp(m, 3 - nSize) else ShiftDown(m, nSize - 3);
    Pack(c, nSize) + if n < 0 then SIGN_BIT else 0
  }

  /** A positive target written with as many mantissa bits as fit, of at least three bytes. */
  predicate Normalized(c: nat) {
    3 <= SizeOf(c) <= 254 && 0x8000 <= WordOf(c) && c / SIGN_BIT % 2 == 0
  }

  /** Two, three and four bytes, a dropped low part, a negative number and zero. */
  lemma UnpackedExamples()
    ensures SetCompact(0x0212_3456) == 0x1234 && SetCompact(0x0312_3456) == 0x12_3456
    ensures SetCompact(0x0412_3456) == 0x1234_5600 && SetCompact(0x0500_9234) == 0x9234_0000
    ensures SetCompact(0x0492_3456) == -0x1234_5600 && SetCompact(0x01fe_dcba) == -0x7e && SetCompact(0x0012_3456) == 0
  {
    assert Pow256(1) == 0x100 && Pow256(2) == 0x1_0000 && Pow256(3) == 0x100_0000;
  }

  lemma NormalizedValue(c: nat)
    requires Normalized(c)
    ensures SetCompact(c) == WordOf(c) * Pow256(SizeOf(c) - 3) > 0
    ensures c == SizeOf(c) * 0x100_0000 + WordOf(c)
  {
    Product(WordOf(c), Pow256(SizeOf(c) - 3));
    Parts(c);
    hide SizeOf, WordOf;
    if SizeOf(c) == 3 {
      assert Pow256(0) == 1;
    }
  }

  lemma Parts(c: nat)
    requires c / SIGN_BIT % 2 == 0
    ensures c == SizeOf(c) * 0x100_0000 + WordOf(c)
  {
    var q := c / SIGN_BIT;
    assert q == 2 * (q / 2) && q / 2 == c / 0x100_0000;
  }

  lemma Product(a: nat, b: nat)
    requires a > 0 && b > 0
    ensures a * b >= a && a * b >= b
  {
  }

  lemma {:induction false} NumBytesRange(n: nat)
    requires n > 0
    ensures NumBytes(n) > 0 && Pow256(NumBytes(n) - 1) <= n < Pow256(NumBytes(n))
  {
    if n >= 256 {
      NumBytesRange(n / 256);
    } else {
      assert NumBytes(n) == 1 && Pow256(1) == 256;
    }
  }

  lemma {:induction false} NumBytesIs(n: nat, k: nat)
    requires k > 0 && Pow256(k - 1) <= n < Pow256(k)
    ensures NumBytes(n) == k
  {
    if k > 1 {
      NumBytesIs(n / 256, k - 1);
    } else {
      assert Pow256(1) == 256;
    }
  }

  lemma Quotient(n: nat, p: nat)
    requires p > 0
    ensures n / p * p <= n < n / p * p + p
  {
  }

  lemma Apart(a: nat, b: nat, p: nat)
    requires a < b
    ensures a * p + p <= b * p
  {
    assert (a + 1) * p <= b * p;
  }

  lemma QuotientBetween(n: nat, p: nat, lo: nat, hi: nat)
    requires p > 0 && lo * p <= n < hi * p
    ensures lo <= n / p < hi
  {
    Quotient(n, p);
    if n / p < lo {
      Apart(n / p, lo, p);
    }
    if n / p >= hi {
      Atleast(hi, n / p, p);
    }
  }

  lemma Atleast(a: nat, b: nat, p: nat)
    requires a <= b
    ensures a * p <= b * p
  {
  }

  /** The powers around a number of k bytes, in terms of its lowest mantissa byte. */
  lemma Powers(k: nat)
    requires k >= 3
    ensures var p := Pow256(k - 3);
            Pow256(k - 2) == 0x100 * p && Pow256(k - 1) == 0x1_0000 * p && Pow256(k) == 0x100_0000 * p
  {
  }

  lemma SmallPowers()
    ensures Pow256(0) == 1 && Pow256(1) == 0x100 && Pow256(2) == 0x1_0000 && Pow256(3) == 0x100_0000
  {
  }

  lemma PackParts(q: nat, k: nat)
    requires 0x1_0000 <= q < 0x100_0000
    ensures var c := Pack(q, k);
            && c / SIGN_BIT % 2 == 0
            && (if q < SIGN_BIT then SizeOf(c) == k && WordOf(c) == q else SizeOf(c) == k + 1 && WordOf(c) == q / 256)
  {
    assert q / SIGN_BIT == if q < SIGN_BIT then 0 else 1;
    if q < SIGN_BIT {
      WordFields(k, q);
    } else {
      WordFields(k + 1, q / 256);
    }
  }

  lemma WordFields(k: nat, v: nat)
    requires v < SIGN_BIT
    ensures var r := v + k * 0x100_0000;
            SizeOf(r) == k && WordOf(r) == v && r / SIGN_BIT % 2 == 0
  {
    var r := v + k * 0x100_0000;
    assert r / SIGN_BIT == 2 * k;
  }

  /** Packing a target loses less than one part in 2^15 of it, never adds to it, and gives a normalized word. */
  lemma CompactRounds(n: nat)
    requires 0 < n && NumBytes(n) <= 253
    ensures var r := SetCompact(GetCompact(n));
            0 < r <= n && (n - r) * 0x8000 < n
    ensures 0x8000 <= WordOf(GetCompact(n)) && NumBytes(n) <= SizeOf(GetCompact(n)) <= NumBytes(n) + 1
    ensures GetCompact(n) / SIGN_BIT % 2 == 0
  {
    NumBytesRange(n);
    if NumBytes(n) <= 3 {
      SmallRounds(n);
    } else {
      LargeRounds(n);
    }
  }

  lemma SmallRounds(n: nat)
    requires 0 < NumBytes(n) <= 3 && Pow256(NumBytes(n) - 1) <= n < Pow256(NumBytes(n))
    ensures var r := SetCompact(GetCompact(n));
            0 < r <= n && (n - r) * 0x8000 < n
    ensures 0x8000 <= WordOf(GetCompact(n)) && NumBytes(n) <= SizeOf(GetCompact(n)) <= NumBytes(n) + 1
    ensures GetCompact(n) / SIGN_BIT % 2 == 0
  {
    SmallPowers();
    hide Pow256, NumBytes, Pack, SizeOf, WordOf;
    var k := NumBytes(n);
    var q := if k == 1 then n * 0x1_0000 else if k == 2 then n * 0x100 else n;
    assert q == ShiftUp(n, 3 - k);
    assert GetCompact(n) == Pack(q, k);
    PackParts(q, k);
  }

  lemma LargeRounds(n: nat)
    requires 3 < NumBytes(n) <= 253
    requires Pow256(NumBytes(n) - 1) <= n < Pow256(NumBytes(n))
    ensures var r := SetCompact(GetCompact(n));
            0 < r <= n && (n - r) * 0x8000 < n
    ensures 0x8000 <= WordOf(GetCompact(n)) && NumBytes(n) <= SizeOf(GetCompact(n)) <= NumBytes(n) + 1
    ensures GetCompact(n) / SIGN_BIT % 2 == 0
  {
    var k := NumBytes(n);
    var p := Pow256(k - 3);
    Powers(k);
    var q := ShiftDown(n, k - 3);
    assert q == n / p && ShiftUp(q, k - 3) == q * p && ShiftUp(q / 256, k - 2) == q / 256 * (256 * p);
    QuotientBetween(n, p, 0x1_0000, 0x100_0000);
    Quotient(n, p);
    PackParts(q, k);
    Truncated(n, p, q);
    hide Pow256, NumBytes, Pack, SizeOf, WordOf, ShiftUp, ShiftDown;
    assert GetCompact(n) == Pack(q, k);
    assert SetCompact(Pack(q, k)) == if q < SIGN_BIT then ShiftUp(q, k - 3) else ShiftUp(q / 256, k - 2);
  }

  /** A negative number is packed like its absolute value, with the sign bit set. */
  lemma NegativeRounds(n: nat)
    requires 0 < n && NumBytes(n) <= 253
    ensures SetCompact(GetCompact(-(n as int))) == -SetCompact(GetCompact(n))
  {
    CompactRounds(n);
    Negated(n);
    SignFlips(GetCompact(n));
    hide *;
  }

  lemma SignFlips(c: nat)
    requires c / SIGN_BIT % 2 == 0
    ensures SetCompact(c + SIGN_BIT) == -SetCompact(c)
  {
    hide ShiftDown, ShiftUp;
    assert (c + SIGN_BIT) / SIGN_BIT == c / SIGN_BIT + 1;
    assert SizeOf(c + SIGN_BIT) == SizeOf(c) && WordOf(c + SIGN_BIT) == WordOf(c);
  }

  lemma Negated(n: nat)
    requires n > 0
    ensures GetCompact(-(n as int)) == GetCompact(n) + SIGN_BIT
  {
    hide NumBytes, ShiftUp, ShiftDown, Pack;
  }

  /** The mantissa stays in place if it does not reach the sign bit. */
  lemma SizeKept(n: nat)
    requires 3 < NumBytes(n) <= 253 && n < SIGN_BIT * Pow256(NumBytes(n) - 3)
    ensures SizeOf(GetCompact(n)) == NumBytes(n)
  {
    var k := NumBytes(n);
    assert n > 0;
    NumBytesRange(n);
    Powers(k);
    QuotientBetween(n, Pow256(k - 3), 0x1_0000, SIGN_BIT);
    PackParts(ShiftDown(n, k - 3), k);
    hide Pow256, NumBytes, Pack, SizeOf;
    assert GetCompact(n) == Pack(ShiftDown(n, k - 3), k);
  }

  lemma Truncated(n: nat, p: nat, q: nat)
    requires p > 0 && 0x1_0000 <= q < 0x100_0000 && q * p <= n < q * p + p
    ensures var r := if q < SIGN_BIT then q * p else q / 256 * (256 * p);
            0 < r <= n && (n - r) * 0x8000 < n
  {
    Product(q, p);
    if q < SIGN_BIT {
      Atleast(0x1_0000, q, p);
    } else {
      var t := q / 256;
      Product(t, 256 * p);
      assert t * (256 * p) == 256 * t * p;
      assert (256 * t + q % 256) * p == 256 * t * p + q % 256 * p;
      Atleast(q % 256, 255, p);
      Atleast(SIGN_BIT, q, p);
    }
  }

  /** Unpacking a normalized word and packing it again gives the word back. */
  lemma CompactInverse(c: nat)
    requires Normalized(c)
    ensures GetCompact(SetCompact(c)) == c
  {
    NormalizedValue(c);
    var k, w := SizeOf(c), WordOf(c);
    var p := Pow256(k - 3);
    var n := w * p;
    Powers(k);
    SmallPowers();
    hide NumBytes, SizeOf, WordOf, SetCompact;
    if w >= 0x1_0000 {
      Atleast(0x1_0000, w, p);
      Apart(w, 0x100_0000, p);
      NumBytesIs(n, k);
      LongMantissa(n, k, w);
    } else {
      Atleast(0x100, w, p);
      Apart(w, 0x1_0000, p);
      NumBytesIs(n, k - 1);
      if k > 3 {
        Powers(k - 1);
      }
      ShortMantissa(n, k, w);
    }
  }

  lemma LongMantissa(n: nat, k: nat, w: nat)
    requires k >= 3 && 0x1_0000 <= w < SIGN_BIT && n == w * Pow256(k - 3) && NumBytes(n) == k
    ensures GetCompact(n) == w + k * 0x100_0000
  {
    SmallPowers();
    hide Pow256, NumBytes;
    if k > 3 {
      Apart(w, w + 1, Pow256(k - 3));
      QuotientBetween(n, Pow256(k - 3), w, w + 1);
    }
    assert w / SIGN_BIT == 0;
    assert GetCompact(n) == Pack(w, k);
  }

  lemma ShortMantissa(n: nat, k: nat, w: nat)
    requires k >= 3 && 0x8000 <= w < 0x1_0000 && n == w * Pow256(k - 3) && NumBytes(n) == k - 1
    ensures GetCompact(n) == w + k * 0x100_0000
  {
    SmallPowers();
    if k == 3 {
      hide Pow256, NumBytes;
      assert ShiftUp(n, 1) == 256 * w;
      assert GetCompact(n) == Pack(256 * w, 2);
    } else {
      var p := Pow256(k - 4);
      assert Pow256(k - 3) == 256 * p;
      Exact(n, w, p);
      assert ShiftDown(n, k - 4) == 256 * w;
      hide Pow256, NumBytes, ShiftDown, ShiftUp;
      assert GetCompact(n) == Pack(256 * w, k - 1);
    }
  }

  lemma Exact(n: nat, w: nat, p: nat)
    requires p > 0 && n == w * (256 * p)
    ensures n / p == 256 * w
  {
    assert w * (256 * p) == 256 * w * p;
    Apart(256 * w, 256 * w + 1, p);
    QuotientBetween(n, p, 256 * w, 256 * w + 1);
  }
}
