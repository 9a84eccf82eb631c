/** The block reward schedule (GetBlockValue) and the bound it puts on the money supply. */
module Subsidy {
  import opened Transactions

  const HALVING_PERIOD: int := 2_000_000
  const INITIAL_SUBSIDY: int := 50 * COIN * 4 / 3

  /** v >> k for a non-negative v. */
  function ShiftRight(v: nat, k: nat): nat {
    if k == 0 then v else ShiftRight(v, k - 1) / 2
  }

  /** The reward at the start of a halving period; a shift by 64 or more is replaced by zero. */
  function PeriodSubsidy(halvings: nat): nat {
    if halvings >= 64 then 0 else ShiftRight(INITIAL_SUBSIDY, halvings)
  }

  function GetBlockValue(nHeight: nat, nFees: int): int {
    var nSubsidy := PeriodSubsidy(nHeight / HALVING_PERIOD);
    nSubsidy - nSubsidy * (nHeight % HALVING_PERIOD) / (2 * HALVING_PERIOD) + nFees
  }

  /** The sum of the rewards GetBlockValue(i, 0) for i < h. */
  function TotalSubsidy(h: nat): int {
    if h == 0 then 0 else TotalSubsidy(h - 1) + GetBlockValue(h - 1, 0)
  }

  lemma PeriodHalves(k: nat)
    ensures 2 * PeriodSubsidy(k + 1) <= PeriodSubsidy(k)
  {
  }

  lemma {:induction false} PeriodBounded(k: nat)
    ensures PeriodSubsidy(k) <= INITIAL_SUBSIDY
  {
    if k > 0 {
      PeriodBounded(k - 1);
      PeriodHalves(k - 1);
    }
  }

  /** The share cut off inside a halving period. */
  function Cut(s: nat, r: nat): int {
    s * r / (2 * HALVING_PERIOD)
  }

  lemma CutFacts(s: nat, r: nat)
    requires r <= HALVING_PERIOD
    ensures 2 * HALVING_PERIOD * Cut(s, r) <= s * r < 2 * HALVING_PERIOD * Cut(s, r) + 2 * HALVING_PERIOD
    ensures 0 <= 2 * Cut(s, r) <= s
  {
    assert 0 <= s * r <= s * HALVING_PERIOD;
  }

  lemma CutGrows(s: nat, r: nat)
    requires r < HALVING_PERIOD
    ensures Cut(s, r) <= Cut(s, r + 1)
  {
    assert s * (r + 1) == s * r + s;
  }

  lemma ValueByPeriod(k: nat, r: nat)
    requires r < HALVING_PERIOD
    ensures GetBlockValue(k * HALVING_PERIOD + r, 0) == PeriodSubsidy(k) - Cut(PeriodSubsidy(k), r)
  {
    assert (k * HALVING_PERIOD + r) / HALVING_PERIOD == k;
    assert (k * HALVING_PERIOD + r) % HALVING_PERIOD == r;
  }

  lemma SubsidyStep(h: nat)
    ensures 0 <= GetBlockValue(h + 1, 0) <= GetBlockValue(h, 0) <= INITIAL_SUBSIDY
  {
    var k, r := h / HALVING_PERIOD, h % HALVING_PERIOD;
    var s := PeriodSubsidy(k);
    ValueByPeriod(k, r);
    CutFacts(s, r);
    PeriodBounded(k);
    if r + 1 < HALVING_PERIOD {
      ValueByPeriod(k, r + 1);
      CutFacts(s, r + 1);
      CutGrows(s, r);
    } else {
      assert h + 1 == (k + 1) * HALVING_PERIOD + 0;
      ValueByPeriod(k + 1, 0);
      CutFacts(PeriodSubsidy(k + 1), 0);
      PeriodHalves(k);
    }
  }

  lemma {:induction false} ShiftTwice(v: nat, j: nat, k: nat)
    ensures ShiftRight(v, j + k) == ShiftRight(ShiftRight(v, j), k)
  {
    if k > 0 {
      ShiftTwice(v, j, k - 1);
    }
  }

  lemma NibbleShift(v: nat)
    ensures ShiftRight(v, 4) == v / 16
  {
    assert ShiftRight(v, 1) == v / 2 && ShiftRight(v, 2) == v / 4 && ShiftRight(v, 3) == v / 8;
  }

  lemma ByteShift(v: nat)
    ensures ShiftRight(v, 8) == v / 256
  {
    NibbleShift(v);
    ShiftTwice(v, 4, 4);
    NibbleShift(v / 16);
  }

  /** The reward has 33 bits. */
  lemma {:induction false} LateShift(k: nat)
    requires k >= 40
    ensures ShiftRight(INITIAL_SUBSIDY, k) == 0
  {
    if k == 40 {
      var v := INITIAL_SUBSIDY;
      for i := 0 to 5
        invariant ShiftRight(INITIAL_SUBSIDY, 8 * i) == v < 0x100_0000_0000
        invariant i > 0 ==> v < 0x1_0000_0000
        invariant i > 1 ==> v < 0x100_0000
        invariant i > 2 ==> v < 0x1_0000
        invariant i > 3 ==> v < 0x100
        invariant i > 4 ==> v == 0
      {
        ShiftTwice(INITIAL_SUBSIDY, 8 * i, 8);
        ByteShift(v);
        v := v / 256;
        hide ShiftRight;
      }
    } else {
      LateShift(k - 1);
    }
  }

  /** The reward starts at 66.66666666 coins, every two million blocks it is half of what it was, rounded down, and in
      between it falls in a line towards three quarters of its start. */
  lemma RewardSchedule(k: nat, r: nat, nFees: int)
    requires r < 2_000_000
    ensures GetBlockValue(0, 0) == 66_66666666
    ensures GetBlockValue(2_000_000 * (k + 1), 0) == GetBlockValue(2_000_000 * k, 0) / 2
    ensures var start := GetBlockValue(2_000_000 * k, 0);
            GetBlockValue(2_000_000 * k + r, nFees) == start - start * r / 4_000_000 + nFees
  {
    ValueByPeriod(0, 0);
    ValueByPeriod(k, 0);
    ValueByPeriod(k, r);
    ValueByPeriod(k + 1, 0);
    if k + 1 == 64 {
      LateShift(63);
    }
    hide ShiftRight;
  }

  /** The subsidy is never negative and never rises with height. */
  lemma {:induction false} SubsidyNeverRises(h: nat, later: nat)
    requires h <= later
    ensures 0 <= GetBlockValue(later, 0) <= GetBlockValue(h, 0) <= INITIAL_SUBSIDY
  {
    if h == later {
      SubsidyStep(h);
    } else {
      SubsidyNeverRises(h, later - 1);
      SubsidyStep(later - 1);
    }
  }

  /** The first n rewards of a period, by the area under a falling line. */
  lemma {:induction false} PeriodPrefixBound(k: nat, n: nat)
    requires n <= HALVING_PERIOD
    ensures var s := PeriodSubsidy(k);
            4 * HALVING_PERIOD * (TotalSubsidy(k * HALVING_PERIOD + n) - TotalSubsidy(k * HALVING_PERIOD))
              <= 4 * HALVING_PERIOD * s * n - s * (n * (n - 1)) + 4 * HALVING_PERIOD * n
  {
    if n > 0 {
      var s, r := PeriodSubsidy(k), n - 1;
      PeriodPrefixBound(k, r);
      ValueByPeriod(k, r);
      CutFacts(s, r);
      PrefixAlgebra(s, r, 4 * HALVING_PERIOD);
    }
  }

  lemma PrefixAlgebra(s: nat, r: nat, p: nat)
    ensures p * s * (r + 1) - s * ((r + 1) * r) + p * (r + 1)
            == p * s * r - s * (r * (r - 1)) + p * r + (p * s - 2 * (s * r) + p)
  {
    assert p * s * (r + 1) == p * s * r + p * s;
    assert (r + 1) * r == r * (r - 1) + 2 * r;
    assert s * ((r + 1) * r) == s * (r * (r - 1)) + 2 * (s * r);
  }

  lemma PeriodBound(k: nat)
    ensures 4 * (TotalSubsidy((k + 1) * HALVING_PERIOD) - TotalSubsidy(k * HALVING_PERIOD))
            <= (3 * HALVING_PERIOD + 1) * PeriodSubsidy(k) + 4 * HALVING_PERIOD
  {
    PeriodPrefixBound(k, HALVING_PERIOD);
    assert (k + 1) * HALVING_PERIOD == k * HALVING_PERIOD + HALVING_PERIOD;
    var d := TotalSubsidy((k + 1) * HALVING_PERIOD) - TotalSubsidy(k * HALVING_PERIOD);
    CancelPeriod(HALVING_PERIOD, PeriodSubsidy(k), d);
  }

  lemma CancelPeriod(p: int, s: int, d: int)
    requires 0 < p
    requires 4 * p * d <= 4 * p * s * p - s * (p * (p - 1)) + 4 * p * p
    ensures 4 * d <= (3 * p + 1) * s + 4 * p
  {
    var bound := (3 * p + 1) * s + 4 * p;
    assert 4 * p * s * p - s * (p * (p - 1)) + 4 * p * p == p * bound;
    assert p * (4 * d) <= p * bound;
  }

  lemma {:induction false} PeriodsBound(k: nat)
    requires k <= 64
    ensures 4 * TotalSubsidy(k * HALVING_PERIOD)
            <= (3 * HALVING_PERIOD + 1) * 2 * (INITIAL_SUBSIDY - PeriodSubsidy(k)) + 4 * HALVING_PERIOD * k
  {
    if k > 0 {
      PeriodsBound(k - 1);
      PeriodBound(k - 1);
      PeriodHalves(k - 1);
      Telescope(3 * HALVING_PERIOD + 1, INITIAL_SUBSIDY, PeriodSubsidy(k - 1), PeriodSubsidy(k));
    }
  }

  lemma Telescope(q: nat, s0: int, s: int, next: int)
    requires 2 * next <= s
    ensures q * 2 * (s0 - s) + q * s <= q * 2 * (s0 - next)
  {
    assert q * 2 * (s0 - next) - q * 2 * (s0 - s) == q * (2 * s - 2 * next);
    assert q * s <= q * (2 * s - 2 * next);
  }

  lemma {:induction false} TotalGrows(h: nat, later: nat)
    requires h <= later
    ensures TotalSubsidy(h) <= TotalSubsidy(later)
  {
    if h < later {
      TotalGrows(h, later - 1);
      SubsidyStep(later - 1);
    }
  }

  lemma {:induction false} NothingAfter64Periods(n: nat)
    ensures TotalSubsidy(64 * HALVING_PERIOD + n) == TotalSubsidy(64 * HALVING_PERIOD)
  {
    if n > 0 {
      NothingAfter64Periods(n - 1);
      assert (64 * HALVING_PERIOD + (n - 1)) / HALVING_PERIOD >= 64;
    }
  }

  /** However long the chain, the subsidies never add up to more than MAX_MONEY. */
  lemma SupplyWithinMaxMoney(h: nat)
    ensures 0 <= TotalSubsidy(h) <= MAX_MONEY
  {
    TotalGrows(0, h);
    PeriodsBound(64);
    if h <= 64 * HALVING_PERIOD {
      TotalGrows(h, 64 * HALVING_PERIOD);
    } else {
      NothingAfter64Periods(h - 64 * HALVING_PERIOD);
    }
  }
}
