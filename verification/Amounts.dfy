/** CTxOutCompressor's compact form of amounts: most amounts end in zeros, which are stored as an exponent. */
module Amounts {
  import opened Transactions

  const UINT64_LIMIT: int := 0x1_0000_0000_0000_0000

  function Pow10(e: nat): (r: nat)
    ensures r > 0
  {
    if e == 0 then 1 else 10 * Pow10(e - 1)
  }

  /** Takes trailing zeros off n until the exponent is 9. */
  function Strip(n: nat, e: nat): (nat, nat)
    requires n > 0 && e <= 9
    decreases n
  {
    if n % 10 == 0 && e < 9 then Strip(n / 10, e + 1) else (n, e)
  }

  function Code(m: nat, e: nat): nat
    requires m > 0 && e <= 9 && (e < 9 ==> m % 10 != 0)
  {
    if e < 9 then 1 + (m / 10 * 9 + m % 10 - 1) * 10 + e else 1 + (m - 1) * 10 + 9
  }

  lemma {:induction false} StripMeaning(n: nat, e: nat)
    requires n > 0 && e <= 9
    ensures var (m, f) := Strip(n, e);
            && m > 0 && e <= f <= 9 && (f < 9 ==> m % 10 != 0) && n == m * Pow10(f - e)
  {
    if n % 10 == 0 && e < 9 {
      StripMeaning(n / 10, e + 1);
      var (m, f) := Strip(n / 10, e + 1);
      TimesTen(m, f - e - 1);
    }
  }

  function Compressed(n: nat): nat {
    if n == 0 then 0
    else
      StripMeaning(n, 0);
      Code(Strip(n, 0).0, Strip(n, 0).1)
  }

  /** The digits before the zeros that a nonzero code stands for. */
  function Mantissa(x: nat): nat
    requires x > 0
  {
    var y := (x - 1) / 10;
    if (x - 1) % 10 < 9 then y / 9 * 10 + y % 9 + 1 else y + 1
  }

  function Decompressed(x: nat): nat {
    if x == 0 then 0 else Mantissa(x) * Pow10((x - 1) % 10)
  }

  lemma CodeInverse(m: nat, e: nat)
    requires m > 0 && e <= 9 && (e < 9 ==> m % 10 != 0)
    ensures Code(m, e) > 0 && Mantissa(Code(m, e)) == m && (Code(m, e) - 1) % 10 == e
  {
    if e < 9 {
      var q, d := m / 10, m % 10;
      var y := q * 9 + d - 1;
      assert (Code(m, e) - 1) / 10 == y;
      assert y / 9 == q && y % 9 == d - 1;
    } else {
      assert (Code(m, e) - 1) / 10 == m - 1;
    }
  }

  lemma {:induction false} StripUnique(m: nat, e: nat, f: nat)
    requires m > 0 && e <= f <= 9 && (f < 9 ==> m % 10 != 0)
    ensures m * Pow10(f - e) > 0 && Strip(m * Pow10(f - e), e) == (m, f)
    decreases f - e
  {
    if e < f {
      StripUnique(m, e + 1, f);
      var rest := m * Pow10(f - e - 1);
      TimesTen(m, f - e - 1);
    }
  }

  /** Every amount survives compression. */
  lemma DecompressCompress(n: nat)
    ensures Decompressed(Compressed(n)) == n
  {
    if n > 0 {
      StripMeaning(n, 0);
      CodeInverse(Strip(n, 0).0, Strip(n, 0).1);
    }
  }

  /** Every number is the code of some amount, and of one only. */
  lemma CompressDecompress(x: nat)
    ensures Compressed(Decompressed(x)) == x
  {
    if x > 0 {
      var m, e := Mantissa(x), (x - 1) % 10;
      MantissaCode(x);
      StripUnique(m, 0, e);
      hide Mantissa, Code, Strip, Pow10;
    }
  }

  lemma MantissaCode(x: nat)
    requires x > 0
    ensures var m, e := Mantissa(x), (x - 1) % 10;
            0 <= e <= 9 && m > 0 && (e < 9 ==> m % 10 != 0) && Code(m, e) == x
  {
    var y, e := (x - 1) / 10, (x - 1) % 10;
    if e < 9 {
      var m := y / 9 * 10 + y % 9 + 1;
      assert m / 10 == y / 9 && m % 10 == y % 9 + 1;
    }
  }

  /** The pairs of the repository's tests: nothing, the smallest amount, a cent, one coin, fifty and 21 million. */
  lemma CompressedExamples()
    ensures Compressed(0) == 0 && Compressed(1) == 0x1 && Compressed(1_000_000) == 0x7 && Compressed(COIN) == 0x9
    ensures Compressed(50 * COIN) == 0x32 && Compressed(21_000_000 * COIN) == 0x140_6f40
  {
    CompressDecompress(0x1);
    CompressDecompress(0x7);
    CompressDecompress(0x9);
    CompressDecompress(0x32);
    CompressDecompress(0x140_6f40);
    assert Pow10(3) == 1000 && Pow10(6) == 1_000_000 && Pow10(8) == 100_000_000;
    hide Compressed;
  }

  lemma {:induction false} MantissaSmall(m: nat, e: nat)
    requires m > 0
    ensures m * Pow10(e) >= m
    ensures e >= 1 ==> m * Pow10(e) >= 10 * m
  {
    if e > 0 {
      MantissaSmall(m, e - 1);
      TimesTen(m, e - 1);
    }
  }

  /** A code is at most nine times the amount, so no valid amount of money overflows 64 bits. */
  lemma CodeFits(n: nat)
    ensures Compressed(n) <= 9 * n
    ensures n <= MAX_MONEY ==> Compressed(n) < UINT64_LIMIT
  {
    if n > 0 {
      StripMeaning(n, 0);
      MantissaSmall(Strip(n, 0).0, Strip(n, 0).1);
    }
  }

  /** With 64-bit wrap-around. */
  method CompressAmount(n: nat) returns (r: nat)
    requires n < UINT64_LIMIT
    ensures r == Compressed(n) % UINT64_LIMIT
  {
    if n == 0 {
      return 0;
    }
    StripMeaning(n, 0);
    var m, e := n, 0;
    while m % 10 == 0 && e < 9
      invariant 0 <= e <= 9 && 0 < m <= n && Strip(n, 0) == Strip(m, e)
      decreases m
    {
      m := m / 10;
      e := e + 1;
    }
    if e < 9 {
      var d := m % 10;
      assert 1 <= d <= 9;
      m := m / 10;
      return (1 + (m * 9 + d - 1) * 10 + e) % UINT64_LIMIT;
    } else {
      return (1 + (m - 1) * 10 + 9) % UINT64_LIMIT;
    }
  }

  method DecompressAmount(x: nat) returns (r: nat)
    requires x < UINT64_LIMIT
    ensures r == Decompressed(x) % UINT64_LIMIT
  {
    if x == 0 {
      return 0;
    }
    var y := x - 1;
    var e := y % 10;
    y := y / 10;
    var n := 0;
    if e < 9 {
      var d := y % 9 + 1;
      y := y / 9;
      n := y * 10 + d;
    } else {
      n := y + 1;
    }
    r := Scale(n, e);
  }

  method Scale(n: nat, e: nat) returns (r: nat)
    requires n < UINT64_LIMIT
    ensures r == n * Pow10(e) % UINT64_LIMIT
  {
    r := n;
    ghost var v, k := n, 0;
    var left := e;
    while left > 0
      invariant k + left == e && v == n * Pow10(k) && r == v % UINT64_LIMIT
    {
      Wrapped(v);
      TimesTen(n, k);
      v := 10 * v;
      r := r * 10 % UINT64_LIMIT;
      left := left - 1;
      k := k + 1;
    }
  }

  lemma TimesTen(n: nat, k: nat)
    ensures n * Pow10(k + 1) == 10 * (n * Pow10(k))
  {
    assert n * (10 * Pow10(k)) == 10 * (n * Pow10(k));
  }

  lemma Wrapped(v: nat)
    ensures (v % UINT64_LIMIT) * 10 % UINT64_LIMIT == 10 * v % UINT64_LIMIT
  {
    assert 10 * v == (v % UINT64_LIMIT) * 10 + UINT64_LIMIT * (10 * (v / UINT64_LIMIT));
  }
}
