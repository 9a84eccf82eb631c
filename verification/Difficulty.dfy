/** Difficulty: the next target is the harmonic mean of a window of targets, scaled by the time the window took. */
module Difficulty {
  import opened Streams
  import opened CompactNumbers

  const INVERSE_ONE: int := 0x100_0000_0000
  const TARGET_TIMESPAN: int := 6 * 60 * 60
  const FIRST_HARDFORK: int := 0
  const SECOND_HARDFORK: int := 0

  /** What GetNextWorkRequired reads of a block index entry. */
  datatype Header = Header(nBits: nat, nTime: nat)

  /** 2^236 - 1 */
  function PowLimit(): nat {
    0x10_0000 * Pow256(27) - 1
  }

  // ---------- inverting one target

  /** invertCompact's loop: size and mantissa until the mantissa fits 23 bits. */
  function Shrunk(nSize: nat, nWord: nat): (nat, nat)
    decreases nWord
  {
    if nWord >= SIGN_BIT then Shrunk((nSize + 1) % 256, nWord / 256) else (nSize, nWord)
  }

  function InvertCompact(nBits: nat): nat
    requires WordOf(nBits) > 0
  {
    var (nSize2, nWord2) := Shrunk((33 - SizeOf(nBits)) % 256, INVERSE_ONE / WordOf(nBits));
    nSize2 * 0x100_0000 + nWord2
  }

  method Invert(nBits: nat) returns (r: nat)
    requires nBits < 0x1_0000_0000 && WordOf(nBits) > 0
    ensures r == InvertCompact(nBits)
  {
    var nSize: int := SizeOf(nBits);
    var nWord := WordOf(nBits);
    QuotientSign(INVERSE_ONE, nWord);
    var nSize2: nat := (33 - nSize) % 256;
    var nWord2: nat := INVERSE_ONE / nWord;
    ghost var whole := Shrunk(nSize2, nWord2);
    while nWord2 >= SIGN_BIT
      invariant Shrunk(nSize2, nWord2) == whole
    {
      nWord2 := nWord2 / 256;
      nSize2 := (nSize2 + 1) % 256;
    }
    return nSize2 * 0x100_0000 + nWord2;
  }

  /** The targets of real blocks: normalized, and of no more than the proof-of-work limit's 30 bytes. */
  predicate Usable(c: nat) {
    Normalized(c) && SizeOf(c) <= 30
  }

  function Target(c: nat): (t: nat)
    requires Usable(c)
    ensures t > 0
  {
    NormalizedValue(c);
    SetCompact(c)
  }

  function One(): nat {
    Pow256(32)
  }

  /** Mantissa times inverted mantissa misses 2^40 by at most one part in 2^15. */
  lemma MantissaInverse(w: nat)
    requires 0x8000 <= w < SIGN_BIT
    ensures var v := INVERSE_ONE / w;
            && 0x2_0000 <= v <= 0x200_0000 && w * v <= INVERSE_ONE < w * v + w
            && (v >= SIGN_BIT ==> 0x8000 <= v / 256 < SIGN_BIT && w <= 0x2_0000)
  {
    var v := INVERSE_ONE / w;
    Quotient(INVERSE_ONE, w);
    QuotientBetween(INVERSE_ONE, w, 0x2_0000, 0x200_0001);
    if v >= SIGN_BIT {
      Atleast(SIGN_BIT, v, w);
    }
  }

  lemma {:induction false} PowersMultiply(a: nat, b: nat)
    ensures Pow256(a) * Pow256(b) == Pow256(a + b)
  {
    if a > 0 {
      PowersMultiply(a - 1, b);
      assert 256 * Pow256(a - 1) * Pow256(b) == 256 * (Pow256(a - 1) * Pow256(b));
    }
  }

  /** The inverse of a target, as a number. */
  function Inverse(c: nat): (i: nat)
    requires Usable(c)
    ensures i > 0
  {
    InverseValue(c);
    SetCompact(InvertCompact(c))
  }

  lemma InverseValue(c: nat)
    requires Usable(c)
    ensures var w, k := WordOf(c), SizeOf(c);
            var v := INVERSE_ONE / w;
            SetCompact(InvertCompact(c)) == (if v < SIGN_BIT then v * Pow256(30 - k) else v / 256 * Pow256(31 - k)) > 0
  {
    var w, k := WordOf(c), SizeOf(c);
    var v := INVERSE_ONE / w;
    MantissaInverse(w);
    InvertedWord(c);
    var r := InvertCompact(c);
    hide InvertCompact, SetCompact, Pow256;
    if v < SIGN_BIT {
      WordParts(33 - k, v);
      hide SizeOf, WordOf;
      NormalizedValue(r);
    } else {
      WordParts(34 - k, v / 256);
      hide SizeOf, WordOf;
      NormalizedValue(r);
    }
  }

  lemma ShrunkOnce(k: nat, v: nat)
    requires k < 255 && v / 256 < SIGN_BIT
    ensures Shrunk(k % 256, v) == if v < SIGN_BIT then (k, v) else (k + 1, v / 256)
  {
    assert k % 256 == k && (k + 1) % 256 == k + 1;
    if v >= SIGN_BIT {
      assert Shrunk(k, v) == Shrunk(k + 1, v / 256);
    }
  }

  lemma InvertedWord(c: nat)
    requires Usable(c)
    ensures var k := SizeOf(c);
            var v := INVERSE_ONE / WordOf(c);
            InvertCompact(c) == if v < SIGN_BIT then (33 - k) * 0x100_0000 + v else (34 - k) * 0x100_0000 + v / 256
  {
    var k, v := SizeOf(c), INVERSE_ONE / WordOf(c);
    MantissaInverse(WordOf(c));
    assert 0 <= 33 - k < 256;
    hide SizeOf, WordOf;
    ShrunkOnce(33 - k, v);
  }

  lemma WordParts(k: nat, v: nat)
    requires v < SIGN_BIT
    ensures var r := k * 0x100_0000 + v;
            SizeOf(r) == k && WordOf(r) == v && r / SIGN_BIT % 2 == 0
  {
    var r := k * 0x100_0000 + v;
    assert r / SIGN_BIT == 2 * k;
  }

  /** Target times inverse is 2^256, up to one part in 2^15 and never above. */
  lemma InverseClose(c: nat)
    requires Usable(c)
    ensures Inverse(c) * Target(c) <= One()
    ensures One() * 0x7FFF <= Inverse(c) * Target(c) * 0x8000
  {
    var w, k := WordOf(c), SizeOf(c);
    var v := INVERSE_ONE / w;
    Factors(c);
    MantissaInverse(w);
    hide SizeOf, WordOf, InvertCompact, SetCompact, Inverse, Target, Pow256;
    PowersMultiply(k - 3, 30 - k);
    PowersMultiply(k - 3, 31 - k);
    TopPowers();
    if v < SIGN_BIT {
      CloseDirect(w, v, Pow256(k - 3), Pow256(30 - k), Pow256(27));
    } else {
      CloseShifted(w, v, Pow256(k - 3), Pow256(31 - k), Pow256(27));
    }
  }

  lemma CloseDirect(w: nat, v: nat, p: nat, q: nat, u: nat)
    requires w < SIGN_BIT && w * v <= INVERSE_ONE < w * v + w && p * q == u
    ensures v * q * (w * p) <= INVERSE_ONE * u && INVERSE_ONE * u * 0x7FFF <= v * q * (w * p) * 0x8000
  {
    Crossed(w, p, v, q, u);
    Scaled(w * v, u);
  }

  lemma CloseShifted(w: nat, v: nat, p: nat, q: nat, u: nat)
    requires w <= 0x2_0000 && w * v <= INVERSE_ONE < w * v + w && p * q == 256 * u
    ensures v / 256 * q * (w * p) <= INVERSE_ONE * u && INVERSE_ONE * u * 0x7FFF <= v / 256 * q * (w * p) * 0x8000
  {
    Crossed(w, p, v / 256, q, 256 * u);
    Shifted(w, v);
    var m := w * (v / 256);
    Scaled(m * 256, u);
    assert m * (256 * u) == m * 256 * u;
  }

  lemma Factors(c: nat)
    requires Usable(c)
    ensures var w, k := WordOf(c), SizeOf(c);
            var v := INVERSE_ONE / w;
            && Target(c) == w * Pow256(k - 3)
            && Inverse(c) == if v < SIGN_BIT then v * Pow256(30 - k) else v / 256 * Pow256(31 - k)
  {
    InverseValue(c);
    NormalizedValue(c);
    hide SizeOf, WordOf, InvertCompact, SetCompact, Pow256;
  }

  lemma TopPowers()
    ensures Pow256(32) == INVERSE_ONE * Pow256(27) && Pow256(28) == 256 * Pow256(27)
  {
    assert Pow256(30) == 256 * Pow256(29) && Pow256(31) == 256 * Pow256(30);
  }

  lemma Crossed(w: nat, p: nat, v: nat, q: nat, pq: nat)
    requires p * q == pq
    ensures v * q * (w * p) == w * v * pq
  {
    assert v * q * (w * p) == w * v * (p * q);
  }

  lemma Shifted(w: nat, v: nat)
    requires w <= 0x2_0000 && w * v <= INVERSE_ONE < w * v + w
    ensures INVERSE_ONE * 0x7FFF <= w * (v / 256) * 256 * 0x8000 && w * (v / 256) * 256 <= INVERSE_ONE
  {
    var t := v / 256 * 256;
    assert w * (v / 256) * 256 == w * t;
    assert t <= v <= t + 255;
    Atleast(t, v, w);
    Atleast(v, t + 255, w);
    assert (t + 255) * w == t * w + 255 * w;
  }

  lemma Scaled(m: nat, u: nat)
    requires m <= INVERSE_ONE && INVERSE_ONE * 0x7FFF <= m * 0x8000
    ensures m * u <= INVERSE_ONE * u && INVERSE_ONE * u * 0x7FFF <= m * u * 0x8000
  {
    Atleast(m, INVERSE_ONE, u);
    Atleast(INVERSE_ONE * 0x7FFF, m * 0x8000, u);
  }

  // ---------- the window

  function InverseSum(bits: seq<nat>): nat
    requires forall c :: c in bits ==> Usable(c)
  {
    if bits == [] then 0 else InverseSum(bits[..|bits| - 1]) + Inverse(bits[|bits| - 1])
  }

  predicate Between(bits: seq<nat>, lo: nat, hi: nat) {
    forall c :: c in bits ==> Usable(c) && lo <= Target(c) <= hi
  }

  lemma {:induction false} SumBounds(bits: seq<nat>, lo: nat, hi: nat)
    requires Between(bits, lo, hi)
    ensures InverseSum(bits) >= |bits| && InverseSum(bits) * lo <= |bits| * One()
    ensures |bits| * One() * 0x7FFF <= InverseSum(bits) * hi * 0x8000
  {
    if bits != [] {
      var front, c := bits[..|bits| - 1], bits[|bits| - 1];
      assert c in bits;
      SumBounds(front, lo, hi);
      InverseClose(c);
      hide Inverse, Target, One;
      var s, i := InverseSum(front), Inverse(c);
      OneMore(s, i, |front|, One(), Target(c), lo, hi);
    }
  }

  lemma OneMore(s: nat, i: nat, n: nat, one: nat, t: nat, lo: nat, hi: nat)
    requires s * lo <= n * one && n * one * 0x7FFF <= s * hi * 0x8000
    requires i * t <= one && one * 0x7FFF <= i * t * 0x8000 && lo <= t <= hi
    ensures (s + i) * lo <= (n + 1) * one && (n + 1) * one * 0x7FFF <= (s + i) * hi * 0x8000
  {
    Atleast(lo, t, i);
    Atleast(t, hi, i);
    assert (s + i) * lo == s * lo + i * lo && (s + i) * hi == s * hi + i * hi && (n + 1) * one == n * one + one;
  }

  /** The average target of a window, scaled by how long it took against how long it should have taken. */
  function Over(n: nat, p: nat): nat
    requires p > 0
  {
    QuotientSign(n, p);
    n / p
  }

  function Times(a: nat, b: nat): nat {
    a * b
  }

  /** The harmonic mean of a window's targets. */
  function Average(bits: seq<nat>): nat
    requires bits != [] && forall c :: c in bits ==> Usable(c)
  {
    SumPositive(bits);
    hide Times, Over, One, InverseSum;
    Over(Times(|bits|, One()), InverseSum(bits))
  }

  lemma AverageIs(bits: seq<nat>)
    requires bits != [] && forall c :: c in bits ==> Usable(c)
    ensures InverseSum(bits) > 0 && Average(bits) == |bits| * One() / InverseSum(bits)
  {
    SumPositive(bits);
  }

  /** The new target before the cap. */
  function Retarget(bits: seq<nat>, span: int): nat
    requires bits != [] && forall c :: c in bits ==> Usable(c)
  {
    Over(Times(Average(bits), Clamp(span, TARGET_TIMESPAN / 3, TARGET_TIMESPAN * 3)), TARGET_TIMESPAN)
  }

  lemma {:induction false} SumPositive(bits: seq<nat>)
    requires forall c :: c in bits ==> Usable(c)
    ensures InverseSum(bits) >= |bits|
  {
    if bits != [] {
      SumPositive(bits[..|bits| - 1]);
    }
  }

  /** The mean lies between the window's smallest target and its largest, the latter up to one part in 2^15. */
  lemma AverageBetween(bits: seq<nat>, lo: nat, hi: nat)
    requires bits != [] && forall c :: c in bits ==> Usable(c) && lo <= Target(c) <= hi
    ensures lo <= Average(bits) && Average(bits) * 0x7FFF <= hi * 0x8000
  {
    SumBounds(bits, lo, hi);
    hide InverseSum, One;
    MeanBetween(|bits| * One(), InverseSum(bits), lo, hi);
  }

  lemma MeanBetween(n: nat, s: nat, lo: nat, hi: nat)
    requires s > 0 && s * lo <= n && n * 0x7FFF <= s * hi * 0x8000
    ensures lo <= n / s && n / s * 0x7FFF <= hi * 0x8000
  {
    Quotient(n, s);
    QuotientSign(n, s);
    var avg: nat := n / s;
    if avg < lo {
      Apart(avg, lo, s);
    }
    AverageBelow(n, s, avg, hi);
  }

  /** Below two hours and above eighteen the window counts as two and eighteen. */
  lemma RetargetIs(bits: seq<nat>, span: int)
    requires bits != [] && forall c :: c in bits ==> Usable(c)
    ensures span <= 7200 ==> Retarget(bits, span) == Average(bits) * 7200 / 21600
    ensures 7200 <= span <= 64800 ==> Retarget(bits, span) == Average(bits) * span / 21600
    ensures 64800 <= span ==> Retarget(bits, span) == Average(bits) * 64800 / 21600
  {
    hide Average;
  }

  lemma Proportional(avg: nat, s1: nat, s2: nat)
    requires s1 <= s2
    ensures avg * s1 / 21600 <= avg * s2 / 21600
    ensures s2 <= 21600 ==> avg * s2 / 21600 <= avg
    ensures s1 >= 21600 ==> avg * s1 / 21600 >= avg
    ensures avg / 3 <= avg * 7200 / 21600 && avg * 64800 / 21600 <= 3 * avg
  {
    Atleast(s1, s2, avg);
    if s2 <= 21600 {
      Atleast(s2, 21600, avg);
    }
    if s1 >= 21600 {
      Atleast(21600, s1, avg);
    }
  }

  /** A window that took longer never gives a smaller target. */
  lemma LongerIsEasier(bits: seq<nat>, span: int, longer: int)
    requires bits != [] && (forall c :: c in bits ==> Usable(c)) && span <= longer
    ensures Retarget(bits, span) <= Retarget(bits, longer)
  {
    RetargetIs(bits, span);
    RetargetIs(bits, longer);
    var s1: nat, s2: nat := Clamp(span, 7200, 64800), Clamp(longer, 7200, 64800);
    Proportional(Average(bits), s1, s2);
    hide Average, Retarget;
  }

  /** A window mined in less than six hours never makes the target larger than its mean, and one that took longer never
      makes it smaller; either way it changes by no more than a factor of three. */
  lemma SixHours(bits: seq<nat>, span: int)
    requires bits != [] && forall c :: c in bits ==> Usable(c)
    ensures span <= 21600 ==> Retarget(bits, span) <= Average(bits)
    ensures span >= 21600 ==> Retarget(bits, span) >= Average(bits)
    ensures Average(bits) / 3 <= Retarget(bits, span) <= 3 * Average(bits)
  {
    var s: nat := Clamp(span, 7200, 64800);
    RetargetIs(bits, span);
    Proportional(Average(bits), 7200, s);
    Proportional(Average(bits), s, 64800);
    hide Average, Retarget;
  }

  /** The new target, before the cap, lies between a third of the window's smallest and three times its largest,
      the latter up to one part in 2^15. */
  lemma RetargetBounds(bits: seq<nat>, span: int, lo: nat, hi: nat)
    requires bits != [] && forall c :: c in bits ==> Usable(c) && lo <= Target(c) <= hi
    ensures lo / 3 <= Retarget(bits, span)
    ensures Retarget(bits, span) * 0x7FFF <= 3 * hi * 0x8000
  {
    AverageBetween(bits, lo, hi);
    SixHours(bits, span);
    hide Average, Retarget;
  }

  lemma AverageBelow(n: nat, s: nat, avg: nat, hi: nat)
    requires s > 0 && avg * s <= n && n * 0x7FFF <= s * hi * 0x8000
    ensures avg * 0x7FFF <= hi * 0x8000
  {
    assert hi * 0x8000 * s == s * hi * 0x8000;
    assert avg * 0x7FFF * s == avg * s * 0x7FFF;
    if avg * 0x7FFF > hi * 0x8000 {
      Apart(hi * 0x8000, avg * 0x7FFF, s);
    }
  }

  function Clamp(val: int, lo: int, hi: int): int {
    if val < lo then lo else if hi < val then hi else val
  }

  /** A 64-bit difference of times passed as a 32-bit int. */
  function ToInt32(d: int): (r: int)
    ensures -0x8000_0000 <= r < 0x8000_0000 && (d - r) % 0x1_0000_0000 == 0
  {
    (d + 0x8000_0000) % 0x1_0000_0000 - 0x8000_0000
  }

  function Capped(t: nat): nat {
    if t > PowLimit() then PowLimit() else t
  }

  /** The easiest target is 2^236 - 1. */
  lemma CapIs(t: nat)
    ensures var easiest := 0xFFF_FFFFFFFF_FFFFFFFF_FFFFFFFF_FFFFFFFF_FFFFFFFF_FFFFFFFF_FFFFFFFF;
            Capped(t) == if t <= easiest then t else easiest
  {
    PowersMultiply(13, 14);
    PowersMultiply(6, 7);
    PowersMultiply(7, 7);
    assert Pow256(6) == 0x1_0000_00000000 && Pow256(7) == 0x1_000000_00000000;
    hide Pow256;
  }

  function Bits(chain: seq<Header>, from: nat, to: nat): (bits: seq<nat>)
    requires from <= to <= |chain|
  {
    seq<nat>(to - from, i requires 0 <= i < to - from => chain[from + i].nBits)
  }

  /** The targets and the duration of the window that ends before the last block. */
  function Window(chain: seq<Header>): (bits: seq<nat>)
    requires |chain| >= 362
    ensures |bits| == 360 && forall i :: 0 <= i < 360 ==> bits[i] == chain[|chain| - 361 + i].nBits
  {
    Bits(chain, |chain| - 361, |chain| - 1)
  }

  function Span(chain: seq<Header>): int
    requires |chain| >= 362
  {
    ToInt32(chain[|chain| - 2].nTime - chain[|chain| - 362].nTime)
  }

  /** The compact target the block after chain must have. Both hardfork heights are zero, so the older spacing and the
      reset at the second hardfork are never used beyond the first blocks. */
  method GetNextWorkRequired(chain: seq<Header>) returns (r: nat)
    requires chain != [] && (|chain| > 363 ==> forall c :: c in Window(chain) ==> Usable(c))
    ensures |chain| <= 363 ==> r == GetCompact(PowLimit())
    ensures |chain| > 363 ==> r == GetCompact(Capped(Retarget(Window(chain), Span(chain))))
    ensures |chain| > 363 ==>
              var avg := Average(Window(chain));
              var span := ToInt32(chain[|chain| - 2].nTime - chain[|chain| - 362].nTime);
              && (span <= 7200 ==> r == GetCompact(Capped(avg * 7200 / 21600)))
              && (7200 <= span <= 64800 ==> r == GetCompact(Capped(avg * span / 21600)))
              && (64800 <= span ==> r == GetCompact(Capped(avg * 64800 / 21600)))
    ensures 0 <= SetCompact(r) <= PowLimit()
  {
    hide InverseSum, One, PowLimit, GetCompact, SetCompact, Usable, Average, Retarget;
    var nHeight := |chain| - 1;
    var nTargetSpacing := if nHeight > FIRST_HARDFORK then 60 else 600;
    var nTargetTimespan := if nHeight > SECOND_HARDFORK then 6 * 60 * 60 else 24 * 60 * 60;
    var nInterval := nTargetTimespan / nTargetSpacing;
    LimitCompact();
    var twentieth := GetCompact(PowLimit() / 20);
    if nHeight <= nInterval + 2 {
      return GetCompact(PowLimit());
    }
    if SECOND_HARDFORK <= nHeight && nHeight <= SECOND_HARDFORK + nInterval {
      return twentieth;
    }
    var pLast := nHeight - 1;
    var pCur := pLast;
    ghost var bits := Bits(chain, nHeight - nInterval, nHeight);
    assert forall i :: 0 <= i < |bits| ==> bits[i] == chain[nHeight - nInterval + i].nBits;
    var bnNew: nat := SumInverses(chain, pLast, nInterval);
    pCur := pLast - nInterval;
    SumPositive(bits);
    QuotientSign(nInterval * One(), bnNew);
    bnNew := nInterval * One() / bnNew;
    AverageIs(bits);
    RetargetIs(bits, ToInt32(chain[pLast].nTime - chain[pCur].nTime));
    var nActualTimespan := Clamp(ToInt32(chain[pLast].nTime - chain[pCur].nTime), nTargetTimespan / 3,
                                 nTargetTimespan * 3);
    bnNew := bnNew * nActualTimespan;
    bnNew := bnNew / nTargetTimespan;
    assert bnNew == Retarget(bits, ToInt32(chain[pLast].nTime - chain[pCur].nTime));
    if bnNew > PowLimit() {
      bnNew := PowLimit();
    }
    CappedCompact(bnNew);
    return GetCompact(bnNew);
  }

  /** Walks nInterval blocks back from pLast. */
  method SumInverses(chain: seq<Header>, pLast: nat, nInterval: nat) returns (sum: nat)
    requires nInterval <= pLast < |chain| - 1
    requires forall c :: c in Bits(chain, pLast + 1 - nInterval, pLast + 1) ==> Usable(c)
    ensures sum == InverseSum(Bits(chain, pLast + 1 - nInterval, pLast + 1))
  {
    hide InverseSum, Inverse, InvertCompact, SetCompact, Usable;
    sum := 0;
    ghost var bits := Bits(chain, pLast + 1 - nInterval, pLast + 1);
    var i := 0;
    assert bits[..|bits|] == bits;
    while i < nInterval
      invariant 0 <= i <= nInterval
      invariant InverseSum(bits) == sum + InverseSum(bits[..|bits| - i])
    {
      var pCurBlock := pLast - i;
      ghost var front := bits[..|bits| - i];
      assert front[|front| - 1] == chain[pCurBlock].nBits && front[..|front| - 1] == bits[..|bits| - i - 1];
      assert bits[|bits| - i - 1] in bits;
      SumLast(front);
      UsableInverts(chain[pCurBlock].nBits);
      var inverted := Invert(chain[pCurBlock].nBits);
      sum := sum + SetCompact(inverted);
      i := i + 1;
    }
    SumNone(bits[..0]);
  }

  lemma SumLast(bits: seq<nat>)
    requires bits != [] && forall c :: c in bits ==> Usable(c)
    ensures InverseSum(bits) == InverseSum(bits[..|bits| - 1]) + Inverse(bits[|bits| - 1])
  {
  }

  lemma SumNone(bits: seq<nat>)
    requires |bits| == 0
    ensures InverseSum(bits) == 0
  {
  }

  lemma UsableInverts(c: nat)
    requires Usable(c)
    ensures c < 0x1_0000_0000 && WordOf(c) > 0 && SetCompact(InvertCompact(c)) == Inverse(c)
  {
    NormalizedValue(c);
  }

  lemma LimitBytes(t: nat)
    requires 0 < t <= PowLimit()
    ensures NumBytes(t) <= 30
  {
    assert Pow256(28) == 256 * Pow256(27) && Pow256(29) == 256 * Pow256(28) && Pow256(30) == 256 * Pow256(29);
    if NumBytes(t) > 30 {
      NumBytesRange(t);
      PowersGrow(30, NumBytes(t) - 1);
    }
  }

  lemma {:induction false} PowersGrow(a: nat, b: nat)
    requires a <= b
    ensures Pow256(a) <= Pow256(b)
  {
    if a < b {
      PowersGrow(a, b - 1);
    }
  }

  lemma LimitCompact()
    ensures 0 <= SetCompact(GetCompact(PowLimit())) <= PowLimit()
  {
    CappedCompact(PowLimit());
  }

  lemma LargeUsable(t: nat)
    requires 0x1_0000 <= t <= PowLimit()
    ensures Usable(GetCompact(t))
  {
    LimitBytes(t);
    CompactRounds(t);
    assert NumBytes(t) >= 3 by {
      NumBytesRange(t);
      if NumBytes(t) < 3 {
        assert Pow256(2) == 0x1_0000;
        PowersGrow(NumBytes(t), 2);
      }
    }
    if NumBytes(t) == 30 {
      SizeKept(t);
    }
  }

  /** Packing loses less than one part in 2^15 and never leaves the limit; unless the target has shrunk below 2^16 the
      packed word is again one that the next blocks can average. */
  lemma CappedCompact(t: nat)
    requires t <= PowLimit()
    ensures var r := SetCompact(GetCompact(t));
            0 <= r <= t && (t - r) * 0x8000 <= t
    ensures t >= 0x1_0000 ==> Usable(GetCompact(t))
  {
    if t > 0 {
      LimitBytes(t);
      CompactRounds(t);
      if t >= 0x1_0000 {
        LargeUsable(t);
      }
    } else {
      assert GetCompact(0) == 0;
    }
  }
}
