/** Merkle trees over a block's txids: the recursive hash, the flat array with its branches, and the partial tree that
    proves a selection of txids (BIP 37, section "Partial Merkle branch format"). */
module Merkle {
  import opened Basics
  import opened Transactions

  /** The double hash of two concatenated digests, uninterpreted. */
  type PairHash = (Hash, Hash) -> Hash

  /** The number of nodes at a height above n leaves. */
  function CalcTreeWidth(n: nat, height: nat): nat {
    (n + Pow2(height) - 1) / Pow2(height)
  }

  lemma DivUp(n: nat, p: nat)
    requires p >= 1
    ensures var w := (n + p - 1) / p; p * w < n + p && n <= p * w
  {
    var w := (n + p - 1) / p;
    assert p * w <= n + p - 1 < p * w + p;
  }

  lemma WidthStep(n: nat, height: nat)
    ensures CalcTreeWidth(n, 0) == n
    ensures CalcTreeWidth(n, height + 1) == (CalcTreeWidth(n, height) + 1) / 2
  {
    var p := Pow2(height);
    DivUp(n, p);
    DivUp(n, 2 * p);
    var w, v := CalcTreeWidth(n, height), CalcTreeWidth(n, height + 1);
    HalfUp(n, p, w, v);
  }

  lemma HalfUp(n: nat, p: nat, w: nat, v: nat)
    requires p >= 1 && p * w < n + p && n <= p * w && 2 * p * v < n + 2 * p && n <= 2 * p * v
    ensures v == (w + 1) / 2
  {
    assert 2 * p * v == p * (2 * v);
    Expand(p, w, 2);
    Expand(p, 2 * v, 1);
    LessFactor(p, 2 * v, w + 2);
    LessFactor(p, w, 2 * v + 1);
  }

  lemma Expand(p: nat, a: nat, b: nat)
    ensures p * (a + b) == p * a + p * b
  {
  }

  lemma LessFactor(p: nat, a: nat, b: nat)
    requires p * a < p * b
    ensures a < b
  {
  }

  lemma InTree(n: nat, height: nat, pos: nat)
    ensures pos < CalcTreeWidth(n, height) <==> pos * Pow2(height) < n
  {
    var p, w := Pow2(height), CalcTreeWidth(n, height);
    DivUp(n, p);
    hide CalcTreeWidth, Pow2;
    BelowWidth(n, p, w, pos);
  }

  lemma BelowWidth(n: nat, p: nat, w: nat, pos: nat)
    requires p * w < n + p && n <= p * w
    ensures pos < w <==> pos * p < n
  {
    assert pos * p == p * pos;
    if pos < w {
      Expand(p, pos, 1);
      AtLeast(p, pos + 1, w);
    } else {
      AtLeast(p, w, pos);
    }
  }

  lemma AtLeast(p: nat, a: nat, b: nat)
    requires a <= b
    ensures p * a <= p * b
  {
  }

  // ---------- the hash of a node

  /** A node whose right child is missing repeats the left one. */
  function CalcHash(H: PairHash, ids: seq<Hash>, height: nat, pos: nat): Hash
    requires pos < CalcTreeWidth(|ids|, height)
    decreases height
  {
    WidthStep(|ids|, if height == 0 then 0 else height - 1);
    if height == 0 then ids[pos]
    else
      var left := CalcHash(H, ids, height - 1, pos * 2);
      var right := if pos * 2 + 1 < CalcTreeWidth(|ids|, height - 1)
                   then CalcHash(H, ids, height - 1, pos * 2 + 1) else left;
      H(left, right)
  }

  /** The leaves under a node: First .. Last. */
  function First(height: nat, pos: nat): nat {
    pos * Pow2(height)
  }

  function Last(n: nat, height: nat, pos: nat): nat {
    if (pos + 1) * Pow2(height) < n then (pos + 1) * Pow2(height) else n
  }

  lemma Children(n: nat, height: nat, pos: nat)
    requires height > 0 && pos < CalcTreeWidth(n, height)
    ensures First(height, pos) == First(height - 1, 2 * pos) < n
    ensures Last(n, height - 1, 2 * pos) ==
            if 2 * pos + 1 < CalcTreeWidth(n, height - 1) then First(height - 1, 2 * pos + 1) else n
    ensures if 2 * pos + 1 < CalcTreeWidth(n, height - 1)
            then Last(n, height - 1, 2 * pos + 1) == Last(n, height, pos)
            else Last(n, height - 1, 2 * pos) == Last(n, height, pos)
    ensures First(height, pos) <= Last(n, height - 1, 2 * pos) <= Last(n, height, pos) <= n
    ensures 2 * pos < CalcTreeWidth(n, height - 1)
  {
    var p := Pow2(height - 1);
    InTree(n, height, pos);
    InTree(n, height - 1, 2 * pos);
    InTree(n, height - 1, 2 * pos + 1);
    assert Pow2(height) == 2 * p;
    Doubled(pos, p);
    hide CalcTreeWidth, Pow2;
  }

  lemma Doubled(pos: nat, p: nat)
    ensures pos * (2 * p) == 2 * pos * p && (pos + 1) * (2 * p) == (2 * pos + 1 + 1) * p
    ensures (2 * pos + 1) * p == 2 * pos * p + p && (2 * pos + 1 + 1) * p == (2 * pos + 1) * p + p
  {
    assert pos * (2 * p) == 2 * pos * p;
    Expand(p, 2 * pos, 1);
    Expand(p, 2 * pos + 1, 1);
    Expand(2 * p, pos, 1);
  }

  lemma Inside(n: nat, height: nat, pos: nat)
    requires pos < CalcTreeWidth(n, height)
    ensures First(height, pos) < Last(n, height, pos) <= n
  {
    InTree(n, height, pos);
    assert (pos + 1) * Pow2(height) == pos * Pow2(height) + Pow2(height);
  }

  lemma LeafRange(n: nat, pos: nat)
    requires pos < n
    ensures First(0, pos) == pos && Last(n, 0, pos) == pos + 1
  {
  }

  // ---------- selections

  predicate AnyMatch(mask: seq<bool>, lo: nat, hi: nat)
    requires hi <= |mask|
  {
    exists p :: lo <= p < hi && mask[p]
  }

  function Masked(ids: seq<Hash>, mask: seq<bool>, lo: nat, hi: nat): seq<Hash>
    requires hi <= |ids| == |mask|
  {
    if lo >= hi then []
    else Masked(ids, mask, lo, hi - 1) + (if mask[hi - 1] then [ids[hi - 1]] else [])
  }

  lemma {:induction false} MaskedSplit(ids: seq<Hash>, mask: seq<bool>, lo: nat, mid: nat, hi: nat)
    requires lo <= mid <= hi <= |ids| == |mask|
    ensures Masked(ids, mask, lo, hi) == Masked(ids, mask, lo, mid) + Masked(ids, mask, mid, hi)
  {
    if mid < hi {
      MaskedSplit(ids, mask, lo, mid, hi - 1);
    }
  }

  lemma {:induction false} MaskedEmpty(ids: seq<Hash>, mask: seq<bool>, lo: nat, hi: nat)
    requires hi <= |ids| == |mask|
    ensures Masked(ids, mask, lo, hi) == [] <==> !AnyMatch(mask, lo, hi)
  {
    if lo < hi {
      MaskedEmpty(ids, mask, lo, hi - 1);
      if AnyMatch(mask, lo, hi) && !mask[hi - 1] {
        var p :| lo <= p < hi && mask[p];
        assert lo <= p < hi - 1 && mask[p];
      }
    }
  }

  // ---------- building the partial tree

  /** The flag bits of the depth-first walk. */
  function BuildBits(mask: seq<bool>, height: nat, pos: nat): seq<bool>
    requires pos < CalcTreeWidth(|mask|, height)
    decreases height
  {
    WidthStep(|mask|, if height == 0 then 0 else height - 1);
    var parentOfMatch := AnyMatch(mask, First(height, pos), Last(|mask|, height, pos));
    if height == 0 || !parentOfMatch then [parentOfMatch]
    else
      [true] + BuildBits(mask, height - 1, pos * 2)
      + if pos * 2 + 1 < CalcTreeWidth(|mask|, height - 1) then BuildBits(mask, height - 1, pos * 2 + 1) else []
  }

  /** The hashes stored on the same walk. */
  function BuildHashes(H: PairHash, ids: seq<Hash>, mask: seq<bool>, height: nat, pos: nat): seq<Hash>
    requires |ids| == |mask| && pos < CalcTreeWidth(|mask|, height)
    decreases height
  {
    WidthStep(|mask|, if height == 0 then 0 else height - 1);
    var parentOfMatch := AnyMatch(mask, First(height, pos), Last(|mask|, height, pos));
    if height == 0 || !parentOfMatch then [CalcHash(H, ids, height, pos)]
    else
      BuildHashes(H, ids, mask, height - 1, pos * 2)
      + if pos * 2 + 1 < CalcTreeWidth(|mask|, height - 1) then BuildHashes(H, ids, mask, height - 1, pos * 2 + 1)
        else []
  }

  lemma BuildUnfold(H: PairHash, ids: seq<Hash>, mask: seq<bool>, height: nat, pos: nat)
    requires |ids| == |mask| && pos < CalcTreeWidth(|mask|, height)
    ensures Last(|mask|, height, pos) <= |mask|
    ensures height > 0 ==> 2 * pos < CalcTreeWidth(|mask|, height - 1)
    ensures if height == 0 || !AnyMatch(mask, First(height, pos), Last(|mask|, height, pos)) then
              && BuildBits(mask, height, pos) == [AnyMatch(mask, First(height, pos), Last(|mask|, height, pos))]
              && BuildHashes(H, ids, mask, height, pos) == [CalcHash(H, ids, height, pos)]
            else if pos * 2 + 1 < CalcTreeWidth(|mask|, height - 1) then
              && BuildBits(mask, height, pos)
                 == [true] + BuildBits(mask, height - 1, pos * 2) + BuildBits(mask, height - 1, pos * 2 + 1)
              && BuildHashes(H, ids, mask, height, pos)
                 == BuildHashes(H, ids, mask, height - 1, pos * 2) + BuildHashes(H, ids, mask, height - 1, pos * 2 + 1)
            else
              && BuildBits(mask, height, pos) == [true] + BuildBits(mask, height - 1, pos * 2)
              && BuildHashes(H, ids, mask, height, pos) == BuildHashes(H, ids, mask, height - 1, pos * 2)
  {
    Inside(|mask|, height, pos);
    if height > 0 {
      Children(|mask|, height, pos);
    }
    hide CalcTreeWidth, First, Last, AnyMatch, CalcHash;
  }

  /** The numbers of bits and hashes of a subtree, from those of its children. */
  lemma BuildSizes(H: PairHash, ids: seq<Hash>, mask: seq<bool>, height: nat, pos: nat)
    requires |ids| == |mask| && pos < CalcTreeWidth(|mask|, height)
    ensures Last(|mask|, height, pos) <= |mask|
    ensures height > 0 ==> 2 * pos < CalcTreeWidth(|mask|, height - 1)
    ensures var bits, hashes := |BuildBits(mask, height, pos)|, |BuildHashes(H, ids, mask, height, pos)|;
            if height == 0 || !AnyMatch(mask, First(height, pos), Last(|mask|, height, pos)) then bits == hashes == 1
            else if pos * 2 + 1 < CalcTreeWidth(|mask|, height - 1) then
              && bits == 1 + |BuildBits(mask, height - 1, pos * 2)| + |BuildBits(mask, height - 1, pos * 2 + 1)|
              && hashes == |BuildHashes(H, ids, mask, height - 1, pos * 2)|
                           + |BuildHashes(H, ids, mask, height - 1, pos * 2 + 1)|
            else
              && bits == 1 + |BuildBits(mask, height - 1, pos * 2)|
              && hashes == |BuildHashes(H, ids, mask, height - 1, pos * 2)|
  {
    hide CalcTreeWidth, First, Last, AnyMatch, BuildBits, BuildHashes, CalcHash;
    BuildUnfold(H, ids, mask, height, pos);
  }

  // ---------- reading it back

  /** Everything TraverseAndExtract returns or updates. */
  datatype Extract = Extract(hash: Hash, bitsUsed: nat, hashUsed: nat, matches: seq<Hash>, bad: bool)

  /** The walk over arbitrary bits and hashes; running out of either marks the tree bad. */
  function Extracted(H: PairHash, n: nat, bits: seq<bool>, hashes: seq<Hash>, height: nat, pos: nat,
                     bitsUsed: nat, hashUsed: nat): Extract
    decreases height
  {
    if bitsUsed >= |bits| then Extract(0, bitsUsed, hashUsed, [], true)
    else
      var parentOfMatch := bits[bitsUsed];
      if height == 0 || !parentOfMatch then
        if hashUsed >= |hashes| then Extract(0, bitsUsed + 1, hashUsed, [], true)
        else
          var hash := hashes[hashUsed];
          Extract(hash, bitsUsed + 1, hashUsed + 1, if height == 0 && parentOfMatch then [hash] else [], false)
      else
        var l := Extracted(H, n, bits, hashes, height - 1, pos * 2, bitsUsed + 1, hashUsed);
        if pos * 2 + 1 < CalcTreeWidth(n, height - 1) then
          var r := Extracted(H, n, bits, hashes, height - 1, pos * 2 + 1, l.bitsUsed, l.hashUsed);
          Extract(H(l.hash, r.hash), r.bitsUsed, r.hashUsed, l.matches + r.matches, l.bad || r.bad)
        else Extract(H(l.hash, l.hash), l.bitsUsed, l.hashUsed, l.matches, l.bad)
  }

  /** What was stored at a place in a longer sequence. */
  predicate Stored<T(==)>(all: seq<T>, at: nat, part: seq<T>) {
    at + |part| <= |all| && all[at..at + |part|] == part
  }

  lemma StoredSplit<T>(all: seq<T>, at: nat, a: seq<T>, b: seq<T>)
    requires Stored(all, at, a + b)
    ensures Stored(all, at, a) && Stored(all, at + |a|, b)
  {
    var part := all[at..at + |a + b|];
    assert part[..|a|] == a && part[|a|..] == b;
    assert all[at..at + |a|] == part[..|a|];
    assert all[at + |a|..at + |a| + |b|] == part[|a|..];
  }

  /** Completeness: wherever a built subtree is stored, reading it consumes exactly its bits and hashes and returns the
      node's hash and the selected txids in block order. */
  lemma {:induction false} ExtractBuilt(H: PairHash, ids: seq<Hash>, mask: seq<bool>, bits: seq<bool>,
                                        hashes: seq<Hash>, height: nat, pos: nat, at: nat, hashAt: nat)
    requires |ids| == |mask| && pos < CalcTreeWidth(|ids|, height)
    requires Stored(bits, at, BuildBits(mask, height, pos))
    requires Stored(hashes, hashAt, BuildHashes(H, ids, mask, height, pos))
    ensures Extracted(H, |ids|, bits, hashes, height, pos, at, hashAt) ==
            Extract(CalcHash(H, ids, height, pos),
                    at + |BuildBits(mask, height, pos)|, hashAt + |BuildHashes(H, ids, mask, height, pos)|,
                    Masked(ids, mask, First(height, pos), Last(|ids|, height, pos)), false)
    decreases height
  {
    hide CalcTreeWidth, Pow2, First, Last, Stored, Masked, BuildBits, BuildHashes, AnyMatch;
    var n := |ids|;
    Inside(n, height, pos);
    var lo, hi := First(height, pos), Last(n, height, pos);
    if height == 0 || !AnyMatch(mask, lo, hi) {
      StopBuilt(H, ids, mask, bits, hashes, height, pos, at, hashAt);
    } else {
      Children(n, height, pos);
      InnerBits(mask, bits, height, pos, at);
      InnerHashes(H, ids, mask, hashes, height, pos, hashAt);
      var BL, SL := BuildBits(mask, height - 1, pos * 2), BuildHashes(H, ids, mask, height - 1, pos * 2);
      ExtractBuilt(H, ids, mask, bits, hashes, height - 1, pos * 2, at + 1, hashAt);
      if pos * 2 + 1 < CalcTreeWidth(n, height - 1) {
        ExtractBuilt(H, ids, mask, bits, hashes, height - 1, pos * 2 + 1, at + 1 + |BL|, hashAt + |SL|);
        MaskedSplit(ids, mask, lo, Last(n, height - 1, 2 * pos), hi);
      }
    }
  }

  /** Where the walk stores a hash and goes no deeper. */
  lemma StopBuilt(H: PairHash, ids: seq<Hash>, mask: seq<bool>, bits: seq<bool>, hashes: seq<Hash>,
                  height: nat, pos: nat, at: nat, hashAt: nat)
    requires |ids| == |mask| && pos < CalcTreeWidth(|ids|, height) && Last(|ids|, height, pos) <= |ids|
    requires height == 0 || !AnyMatch(mask, First(height, pos), Last(|ids|, height, pos))
    requires Stored(bits, at, BuildBits(mask, height, pos))
    requires Stored(hashes, hashAt, BuildHashes(H, ids, mask, height, pos))
    ensures |BuildBits(mask, height, pos)| == |BuildHashes(H, ids, mask, height, pos)| == 1
    ensures Extracted(H, |ids|, bits, hashes, height, pos, at, hashAt) ==
            Extract(CalcHash(H, ids, height, pos), at + 1, hashAt + 1,
                    Masked(ids, mask, First(height, pos), Last(|ids|, height, pos)), false)
  {
    hide CalcTreeWidth, Pow2, First, Last, Stored, Masked;
    var lo, hi := First(height, pos), Last(|ids|, height, pos);
    MaskedEmpty(ids, mask, lo, hi);
    StoredOne(bits, at, AnyMatch(mask, lo, hi));
    StoredOne(hashes, hashAt, CalcHash(H, ids, height, pos));
    if height == 0 {
      LeafMasked(ids, mask, pos);
    }
  }

  /** Where the parts of a built inner node lie. */
  lemma InnerBits(mask: seq<bool>, bits: seq<bool>, height: nat, pos: nat, at: nat)
    requires height > 0 && pos < CalcTreeWidth(|mask|, height) && 2 * pos < CalcTreeWidth(|mask|, height - 1)
    requires Last(|mask|, height, pos) <= |mask| && AnyMatch(mask, First(height, pos), Last(|mask|, height, pos))
    requires Stored(bits, at, BuildBits(mask, height, pos))
    ensures at < |bits| && bits[at]
    ensures var BL := BuildBits(mask, height - 1, pos * 2);
            && Stored(bits, at + 1, BL)
            && if pos * 2 + 1 < CalcTreeWidth(|mask|, height - 1) then
                 var BR := BuildBits(mask, height - 1, pos * 2 + 1);
                 Stored(bits, at + 1 + |BL|, BR) && |BuildBits(mask, height, pos)| == 1 + |BL| + |BR|
               else |BuildBits(mask, height, pos)| == 1 + |BL|
  {
    hide CalcTreeWidth, Pow2, First, Last, Stored, AnyMatch;
    var BL := BuildBits(mask, height - 1, pos * 2);
    var BR := if pos * 2 + 1 < CalcTreeWidth(|mask|, height - 1) then BuildBits(mask, height - 1, pos * 2 + 1) else [];
    assert BuildBits(mask, height, pos) == [true] + (BL + BR);
    StoredSplit(bits, at, [true], BL + BR);
    StoredOne(bits, at, true);
    StoredSplit(bits, at + 1, BL, BR);
  }

  lemma InnerHashes(H: PairHash, ids: seq<Hash>, mask: seq<bool>, hashes: seq<Hash>, height: nat, pos: nat, hashAt: nat)
    requires |ids| == |mask| && height > 0 && pos < CalcTreeWidth(|mask|, height)
    requires 2 * pos < CalcTreeWidth(|mask|, height - 1)
    requires Last(|mask|, height, pos) <= |mask| && AnyMatch(mask, First(height, pos), Last(|mask|, height, pos))
    requires Stored(hashes, hashAt, BuildHashes(H, ids, mask, height, pos))
    ensures var SL := BuildHashes(H, ids, mask, height - 1, pos * 2);
            && Stored(hashes, hashAt, SL)
            && if pos * 2 + 1 < CalcTreeWidth(|mask|, height - 1) then
                 var SR := BuildHashes(H, ids, mask, height - 1, pos * 2 + 1);
                 Stored(hashes, hashAt + |SL|, SR) && |BuildHashes(H, ids, mask, height, pos)| == |SL| + |SR|
               else |BuildHashes(H, ids, mask, height, pos)| == |SL|
  {
    hide CalcTreeWidth, Pow2, First, Last, Stored, AnyMatch, CalcHash;
    var SL := BuildHashes(H, ids, mask, height - 1, pos * 2);
    var SR := if pos * 2 + 1 < CalcTreeWidth(|mask|, height - 1)
              then BuildHashes(H, ids, mask, height - 1, pos * 2 + 1) else [];
    assert BuildHashes(H, ids, mask, height, pos) == SL + SR;
    StoredSplit(hashes, hashAt, SL, SR);
  }

  lemma StoredOne<T>(all: seq<T>, at: nat, x: T)
    requires Stored(all, at, [x])
    ensures at < |all| && all[at] == x
  {
    assert all[at..at + 1][0] == x;
  }

  lemma LeafHash(H: PairHash, ids: seq<Hash>, pos: nat)
    requires pos < CalcTreeWidth(|ids|, 0)
    ensures pos < |ids| && CalcHash(H, ids, 0, pos) == ids[pos]
  {
  }

  lemma LeafMasked(ids: seq<Hash>, mask: seq<bool>, pos: nat)
    requires |ids| == |mask| && pos < CalcTreeWidth(|ids|, 0)
    ensures pos < |ids|
    ensures Masked(ids, mask, First(0, pos), Last(|ids|, 0, pos)) == if mask[pos] then [ids[pos]] else []
    ensures AnyMatch(mask, First(0, pos), Last(|ids|, 0, pos)) <==> mask[pos]
  {
    LeafRange(|ids|, pos);
    assert Masked(ids, mask, pos, pos) == [];
  }

  lemma Spread(a: nat, b: nat, h: nat)
    ensures (1 + a * h) + b * h == 1 + (a + b) * h
    ensures (a + b) * (h + 1) == (a + b) * h + (a + b)
  {
  }

  /** At most one hash more than matched leaves times height. */
  lemma {:induction false} HashCount(H: PairHash, ids: seq<Hash>, mask: seq<bool>, height: nat, pos: nat)
    requires |ids| == |mask| && pos < CalcTreeWidth(|ids|, height)
    ensures |BuildHashes(H, ids, mask, height, pos)|
            <= 1 + |Masked(ids, mask, First(height, pos), Last(|ids|, height, pos))| * height
    decreases height
  {
    hide CalcTreeWidth, Pow2, First, Last, Masked, BuildHashes, BuildBits, AnyMatch;
    var n := |ids|;
    Inside(n, height, pos);
    BuildSizes(H, ids, mask, height, pos);
    var lo, hi := First(height, pos), Last(n, height, pos);
    MaskedEmpty(ids, mask, lo, hi);
    if height > 0 && AnyMatch(mask, lo, hi) {
      Children(n, height, pos);
      var m := |Masked(ids, mask, lo, hi)|;
      HashCount(H, ids, mask, height - 1, pos * 2);
      if 2 * pos + 1 < CalcTreeWidth(n, height - 1) {
        HashCount(H, ids, mask, height - 1, pos * 2 + 1);
        var mid := Last(n, height - 1, 2 * pos);
        MaskedSplit(ids, mask, lo, mid, hi);
        var mL, mR := |Masked(ids, mask, lo, mid)|, |Masked(ids, mask, mid, hi)|;
        Spread(mL, mR, height - 1);
      } else {
        Spread(m, 0, height - 1);
      }
    }
  }

  // ---------- the number of flag bits

  /** How many nodes the walk descends through that have a single child. */
  function Singles(mask: seq<bool>, height: nat, pos: nat): nat
    requires pos < CalcTreeWidth(|mask|, height)
    decreases height
  {
    WidthStep(|mask|, if height == 0 then 0 else height - 1);
    if height == 0 || !AnyMatch(mask, First(height, pos), Last(|mask|, height, pos)) then 0
    else if pos * 2 + 1 < CalcTreeWidth(|mask|, height - 1)
    then Singles(mask, height - 1, pos * 2) + Singles(mask, height - 1, pos * 2 + 1)
    else Singles(mask, height - 1, pos * 2) + 1
  }

  /** The exact number of flag bits: twice the hashes less one, as long as the walk meets no single child. */
  lemma {:induction false} BitCount(H: PairHash, ids: seq<Hash>, mask: seq<bool>, height: nat, pos: nat)
    requires |ids| == |mask| && pos < CalcTreeWidth(|ids|, height)
    ensures |BuildBits(mask, height, pos)|
            == 2 * |BuildHashes(H, ids, mask, height, pos)| - 1 + Singles(mask, height, pos)
    decreases height
  {
    hide CalcTreeWidth, First, Last, BuildBits, BuildHashes, AnyMatch, Pow2;
    BuildSizes(H, ids, mask, height, pos);
    if height > 0 && AnyMatch(mask, First(height, pos), Last(|mask|, height, pos)) {
      BitCount(H, ids, mask, height - 1, pos * 2);
      if 2 * pos + 1 < CalcTreeWidth(|mask|, height - 1) {
        BitCount(H, ids, mask, height - 1, pos * 2 + 1);
      }
    }
  }

  function LastPos(n: nat, h: nat): (pos: nat)
    requires n > 0
    ensures pos + 1 == CalcTreeWidth(n, h)
  {
    DivUp(n, Pow2(h));
    CalcTreeWidth(n, h) - 1
  }

  /** Height h has a node with a single child, which is then the last one, and a selected leaf below it. */
  predicate LonelyMatch(mask: seq<bool>, h: nat)
    requires mask != []
  {
    h > 0 && CalcTreeWidth(|mask|, h - 1) % 2 == 1 && AnyMatch(mask, First(h, LastPos(|mask|, h)), |mask|)
  }

  lemma LastChild(n: nat, h: nat)
    requires n > 0 && h > 0
    ensures LastPos(n, h - 1) == 2 * LastPos(n, h) + (if CalcTreeWidth(n, h - 1) % 2 == 0 then 1 else 0)
    ensures First(h, LastPos(n, h)) <= First(h - 1, LastPos(n, h - 1))
    ensures Last(n, h, LastPos(n, h)) == n
  {
    WidthStep(n, h - 1);
    DivUp(n, Pow2(h));
    Doubled(LastPos(n, h), Pow2(h - 1));
  }

  lemma {:induction false} LastFirst(n: nat, h: nat, height: nat)
    requires n > 0 && h <= height
    ensures First(height, LastPos(n, height)) <= First(h, LastPos(n, h))
    decreases height
  {
    if h < height {
      LastFirst(n, h, height - 1);
      LastChild(n, height);
    }
  }

  /** The walk meets single children only along the right edge, where a selected leaf leads it there. */
  lemma {:induction false} SinglesWhere(mask: seq<bool>, height: nat, pos: nat)
    requires mask != [] && pos < CalcTreeWidth(|mask|, height)
    ensures Singles(mask, height, pos) > 0
            <==> pos == LastPos(|mask|, height) && exists h :: 0 < h <= height && LonelyMatch(mask, h)
    decreases height
  {
    hide CalcTreeWidth, Pow2, First, Last, AnyMatch;
    if height > 0 {
      var n := |mask|;
      Inside(n, height, pos);
      LastChild(n, height);
      if !AnyMatch(mask, First(height, pos), Last(n, height, pos)) {
        if pos == LastPos(n, height) {
          NoLonelyMatch(mask, height);
        }
      } else {
        Children(n, height, pos);
        SinglesWhere(mask, height - 1, pos * 2);
        if pos * 2 + 1 < CalcTreeWidth(n, height - 1) {
          SinglesWhere(mask, height - 1, pos * 2 + 1);
        } else {
          assert LonelyMatch(mask, height);
        }
      }
    }
  }

  lemma NoLonelyMatch(mask: seq<bool>, height: nat)
    requires mask != [] && !AnyMatch(mask, First(height, LastPos(|mask|, height)), |mask|)
    ensures forall h :: 0 < h <= height ==> !LonelyMatch(mask, h)
  {
    forall h | 0 < h <= height ensures !LonelyMatch(mask, h) {
      LastFirst(|mask|, h, height);
    }
  }

  /** At most twice the hashes less one flag bits are stored exactly when no selected leaf lies below a node with a
      single child. */
  lemma BitBound(H: PairHash, ids: seq<Hash>, mask: seq<bool>, height: nat)
    requires |ids| == |mask| > 0 && CalcTreeWidth(|ids|, height) == 1
    ensures |BuildBits(mask, height, 0)| <= 2 * |BuildHashes(H, ids, mask, height, 0)| - 1
            <==> forall h :: 0 < h <= height ==> !LonelyMatch(mask, h)
  {
    hide CalcTreeWidth, BuildBits, BuildHashes, LonelyMatch;
    BitCount(H, ids, mask, height, 0);
    SinglesWhere(mask, height, 0);
  }

  lemma OnlyLast(mask: seq<bool>)
    requires mask == [false, false, true]
    ensures AnyMatch(mask, 0, 3) && AnyMatch(mask, 2, 3) && !AnyMatch(mask, 0, 2)
  {
    assert mask[2];
  }

  lemma ThreeLeaves()
    ensures CalcTreeWidth(3, 0) == 3 && CalcTreeWidth(3, 1) == 2 && CalcTreeWidth(3, 2) == 1
    ensures First(2, 0) == First(1, 0) == 0 && First(1, 1) == First(0, 2) == 2
    ensures Last(3, 2, 0) == Last(3, 1, 1) == Last(3, 0, 2) == 3 && Last(3, 1, 0) == 2
  {
    WidthStep(3, 0);
    WidthStep(3, 1);
  }

  /** Three transactions of which only the last is selected: two hashes and four flag bits. */
  lemma BitWitness(H: PairHash, a: Hash, b: Hash, c: Hash)
    ensures CalcTreeWidth(3, 2) == 1
    ensures |BuildBits([false, false, true], 2, 0)| == 4
    ensures |BuildHashes(H, [a, b, c], [false, false, true], 2, 0)| == 2
  {
    hide CalcTreeWidth, First, Last, BuildBits, BuildHashes, AnyMatch, Pow2;
    var ids, mask := [a, b, c], [false, false, true];
    ThreeLeaves();
    OnlyLast(mask);
    BuildSizes(H, ids, mask, 2, 0);
    BuildSizes(H, ids, mask, 1, 0);
    BuildSizes(H, ids, mask, 1, 1);
    BuildSizes(H, ids, mask, 0, 2);
  }

  // ---------- soundness

  ghost predicate Injective(H: PairHash) {
    forall a, b, c, d :: H(a, b) == H(c, d) ==> a == c && b == d
  }

  /** idxs picks elements of ids between lo and hi, in order. */
  ghost predicate Picks(ids: seq<Hash>, lo: nat, hi: nat, idxs: seq<nat>, matches: seq<Hash>) {
    && |idxs| == |matches|
    && (forall i :: 0 <= i < |idxs| ==> lo <= idxs[i] < hi && idxs[i] < |ids| && matches[i] == ids[idxs[i]])
    && (forall i, j :: 0 <= i < j < |idxs| ==> idxs[i] < idxs[j])
  }

  lemma PicksConcat(ids: seq<Hash>, lo: nat, mid: nat, hi: nat, a: seq<nat>, am: seq<Hash>, b: seq<nat>, bm: seq<Hash>)
    requires lo <= mid <= hi && Picks(ids, lo, mid, a, am) && Picks(ids, mid, hi, b, bm)
    ensures Picks(ids, lo, hi, a + b, am + bm)
  {
  }

  /** An injective pair hash pins both children. */
  lemma Uncombine(H: PairHash, ids: seq<Hash>, bits: seq<bool>, hashes: seq<Hash>, height: nat, pos: nat,
                  bitsUsed: nat, hashUsed: nat)
    requires Injective(H) && height > 0 && pos < CalcTreeWidth(|ids|, height)
    requires bitsUsed < |bits| && bits[bitsUsed]
    requires var e := Extracted(H, |ids|, bits, hashes, height, pos, bitsUsed, hashUsed);
             !e.bad && e.hash == CalcHash(H, ids, height, pos)
    ensures 2 * pos < CalcTreeWidth(|ids|, height - 1)
    ensures var l := Extracted(H, |ids|, bits, hashes, height - 1, pos * 2, bitsUsed + 1, hashUsed);
            && !l.bad && l.hash == CalcHash(H, ids, height - 1, pos * 2)
            && (2 * pos + 1 < CalcTreeWidth(|ids|, height - 1) ==>
                  var r := Extracted(H, |ids|, bits, hashes, height - 1, pos * 2 + 1, l.bitsUsed, l.hashUsed);
                  !r.bad && r.hash == CalcHash(H, ids, height - 1, pos * 2 + 1))
  {
    Children(|ids|, height, pos);
    hide CalcTreeWidth, Pow2, First, Last;
  }

  /** Soundness: if reading arbitrary bits and hashes yields the true hash of a node, without running out, then the
      extracted txids are leaves under that node, in block order. */
  lemma {:induction false} ExtractSound(H: PairHash, ids: seq<Hash>, bits: seq<bool>, hashes: seq<Hash>,
                                        height: nat, pos: nat, bitsUsed: nat, hashUsed: nat) returns (idxs: seq<nat>)
    requires Injective(H) && pos < CalcTreeWidth(|ids|, height)
    requires var e := Extracted(H, |ids|, bits, hashes, height, pos, bitsUsed, hashUsed);
             !e.bad && e.hash == CalcHash(H, ids, height, pos)
    ensures Picks(ids, First(height, pos), Last(|ids|, height, pos), idxs,
                  Extracted(H, |ids|, bits, hashes, height, pos, bitsUsed, hashUsed).matches)
    decreases height
  {
    hide CalcTreeWidth, Pow2, Injective, First, Last, CalcHash;
    var n := |ids|;
    Inside(n, height, pos);
    idxs := [];
    if height == 0 {
      WidthStep(n, 0);
      LeafRange(n, pos);
      if bits[bitsUsed] {
        assert CalcHash(H, ids, 0, pos) == ids[pos] by {
          LeafHash(H, ids, pos);
        }
        idxs := [pos];
      }
    } else if bits[bitsUsed] {
      Children(n, height, pos);
      var l := Extracted(H, n, bits, hashes, height - 1, pos * 2, bitsUsed + 1, hashUsed);
      Uncombine(H, ids, bits, hashes, height, pos, bitsUsed, hashUsed);
      var left := ExtractSound(H, ids, bits, hashes, height - 1, pos * 2, bitsUsed + 1, hashUsed);
      idxs := left;
      if pos * 2 + 1 < CalcTreeWidth(n, height - 1) {
        var right := ExtractSound(H, ids, bits, hashes, height - 1, pos * 2 + 1, l.bitsUsed, l.hashUsed);
        var r := Extracted(H, n, bits, hashes, height - 1, pos * 2 + 1, l.bitsUsed, l.hashUsed);
        PicksConcat(ids, First(height, pos), First(height - 1, 2 * pos + 1), Last(n, height, pos), left, l.matches,
                    right, r.matches);
        idxs := left + right;
      }
    }
  }
}
