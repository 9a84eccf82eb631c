/** The code that walks Merkle trees: CPartialMerkleTree, and the flat array of CBlock with its branches. */
module MerkleTrees {
  import opened Basics
  import opened Transactions
  import opened Merkle

  /** The height at which the tree over n leaves has its root. */
  ghost predicate IsTreeHeight(n: nat, h: nat) {
    CalcTreeWidth(n, h) <= 1 && forall k :: 0 <= k < h ==> CalcTreeWidth(n, k) > 1
  }

  method TreeHeight(n: nat) returns (nHeight: nat)
    ensures IsTreeHeight(n, nHeight)
    ensures n > 0 ==> CalcTreeWidth(n, nHeight) == 1
  {
    nHeight := 0;
    WidthStep(n, 0);
    while CalcTreeWidth(n, nHeight) > 1
      invariant forall k :: 0 <= k < nHeight ==> CalcTreeWidth(n, k) > 1
      invariant n > 0 ==> CalcTreeWidth(n, nHeight) >= 1
      decreases CalcTreeWidth(n, nHeight)
    {
      WidthStep(n, nHeight);
      nHeight := nHeight + 1;
    }
  }

  lemma RootRange(n: nat, h: nat)
    requires n > 0 && IsTreeHeight(n, h)
    ensures 0 < CalcTreeWidth(n, h) == 1 && First(h, 0) == 0 && Last(n, h, 0) == n
  {
    InTree(n, h, 0);
    InTree(n, h, 1);
  }

  class PartialMerkleTree {
    var nTransactions: nat
    var vBits: seq<bool>
    var vHash: seq<Hash>
    var fBad: bool

    /** Whether a node is the parent of a matched txid. */
    method IsParentOfMatch(height: nat, pos: nat, vMatch: seq<bool>) returns (fParentOfMatch: bool)
      requires |vMatch| == nTransactions && pos < CalcTreeWidth(nTransactions, height)
      ensures Last(nTransactions, height, pos) <= nTransactions
      ensures fParentOfMatch == AnyMatch(vMatch, First(height, pos), Last(nTransactions, height, pos))
    {
      Inside(nTransactions, height, pos);
      hide CalcTreeWidth, Pow2;
      fParentOfMatch := false;
      var p := First(height, pos);
      while p < (pos + 1) * Pow2(height) && p < nTransactions
        invariant First(height, pos) <= p <= Last(nTransactions, height, pos)
        invariant fParentOfMatch == AnyMatch(vMatch, First(height, pos), p)
      {
        fParentOfMatch := fParentOfMatch || vMatch[p];
        p := p + 1;
      }
    }

    /** Appends the flag bits and hashes of the subtree. */
    method TraverseAndBuild(H: PairHash, height: nat, pos: nat, vTxid: seq<Hash>, vMatch: seq<bool>)
      requires |vTxid| == |vMatch| == nTransactions && pos < CalcTreeWidth(nTransactions, height)
      modifies `vBits, `vHash
      ensures vBits == old(vBits) + BuildBits(vMatch, height, pos)
      ensures vHash == old(vHash) + BuildHashes(H, vTxid, vMatch, height, pos)
      decreases height
    {
      hide CalcTreeWidth, Pow2, CalcHash, First, Last, AnyMatch, BuildBits, BuildHashes;
      BuildUnfold(H, vTxid, vMatch, height, pos);
      var fParentOfMatch := IsParentOfMatch(height, pos, vMatch);
      vBits := vBits + [fParentOfMatch];
      if height == 0 || !fParentOfMatch {
        var hash := CalcHash(H, vTxid, height, pos);
        vHash := vHash + [hash];
      } else {
        TraverseAndBuild(H, height - 1, pos * 2, vTxid, vMatch);
        if pos * 2 + 1 < CalcTreeWidth(nTransactions, height - 1) {
          TraverseAndBuild(H, height - 1, pos * 2 + 1, vTxid, vMatch);
        }
      }
    }

    /** The partial tree of a nonempty list of txids under a mask. */
    constructor (H: PairHash, vTxid: seq<Hash>, vMatch: seq<bool>)
      requires |vTxid| == |vMatch| > 0
      ensures nTransactions == |vTxid| && !fBad
      ensures forall h: nat :: IsTreeHeight(|vTxid|, h) ==>
                && 0 < CalcTreeWidth(|vTxid|, h)
                && vBits == BuildBits(vMatch, h, 0) && vHash == BuildHashes(H, vTxid, vMatch, h, 0)
    {
      nTransactions, fBad, vBits, vHash := |vTxid|, false, [], [];
      new;
      var nHeight := TreeHeight(nTransactions);
      TraverseAndBuild(H, nHeight, 0, vTxid, vMatch);
      forall h | IsTreeHeight(|vTxid|, h) ensures h == nHeight {
      }
    }

    /** Consumes bits and hashes; the counters and the matches are the source's reference parameters. */
    method TraverseAndExtract(H: PairHash, height: nat, pos: nat, nBitsUsed: nat, nHashUsed: nat, vMatch: seq<Hash>)
      returns (hash: Hash, bitsUsed: nat, hashUsed: nat, matches: seq<Hash>)
      modifies `fBad
      ensures var e := Extracted(H, nTransactions, vBits, vHash, height, pos, nBitsUsed, nHashUsed);
              && (hash, bitsUsed, hashUsed) == (e.hash, e.bitsUsed, e.hashUsed)
              && matches == vMatch + e.matches
              && fBad == (old(fBad) || e.bad)
      decreases height
    {
      hide CalcTreeWidth;
      if nBitsUsed >= |vBits| {
        fBad := true;
        return 0, nBitsUsed, nHashUsed, vMatch;
      }
      var fParentOfMatch := vBits[nBitsUsed];
      bitsUsed, hashUsed, matches := nBitsUsed + 1, nHashUsed, vMatch;
      if height == 0 || !fParentOfMatch {
        if nHashUsed >= |vHash| {
          fBad := true;
          return 0, bitsUsed, hashUsed, matches;
        }
        hash := vHash[nHashUsed];
        hashUsed := hashUsed + 1;
        if height == 0 && fParentOfMatch {
          matches := matches + [hash];
        }
      } else {
        var left, right;
        left, bitsUsed, hashUsed, matches := TraverseAndExtract(H, height - 1, pos * 2, bitsUsed, hashUsed, matches);
        if pos * 2 + 1 < CalcTreeWidth(nTransactions, height - 1) {
          right, bitsUsed, hashUsed, matches :=
            TraverseAndExtract(H, height - 1, pos * 2 + 1, bitsUsed, hashUsed, matches);
        } else {
          right := left;
        }
        hash := H(left, right);
      }
    }
  }

  /** Building and reading a partial tree: everything is consumed, up to padding bits at the end, the root is the
      block's, the matches are the selected txids in block order, and the proof stays small. */
  lemma PartialTreeRoundTrip(H: PairHash, ids: seq<Hash>, mask: seq<bool>, h: nat, padding: seq<bool>)
    requires |ids| == |mask| > 0 && IsTreeHeight(|ids|, h)
    ensures 0 < CalcTreeWidth(|ids|, h)
    ensures var bits, hashes := BuildBits(mask, h, 0), BuildHashes(H, ids, mask, h, 0);
            && Extracted(H, |ids|, bits + padding, hashes, h, 0, 0, 0)
               == Extract(CalcHash(H, ids, h, 0), |bits|, |hashes|, Masked(ids, mask, 0, |ids|), false)
            && |hashes| <= 1 + |Masked(ids, mask, 0, |ids|)| * h
  {
    hide CalcTreeWidth, Pow2;
    RootRange(|ids|, h);
    var bits, hashes := BuildBits(mask, h, 0), BuildHashes(H, ids, mask, h, 0);
    assert Stored(bits + padding, 0, bits);
    assert Stored(hashes, 0, hashes);
    ExtractBuilt(H, ids, mask, bits + padding, hashes, h, 0, 0, 0);
    HashCount(H, ids, mask, h, 0);
  }

  /** Arbitrary bits and hashes that lead to the block's root prove only txids of the block, in block order. */
  lemma PartialTreeSound(H: PairHash, ids: seq<Hash>, bits: seq<bool>, hashes: seq<Hash>, h: nat)
    returns (idxs: seq<nat>)
    requires Injective(H) && ids != [] && IsTreeHeight(|ids|, h)
    requires (RootRange(|ids|, h);
              var e := Extracted(H, |ids|, bits, hashes, h, 0, 0, 0); !e.bad && e.hash == CalcHash(H, ids, h, 0))
    ensures Picks(ids, 0, |ids|, idxs, Extracted(H, |ids|, bits, hashes, h, 0, 0, 0).matches)
  {
    RootRange(|ids|, h);
    idxs := ExtractSound(H, ids, bits, hashes, h, 0, 0, 0);
  }

  // ---------- the flat array

  /** All nodes at one height, left to right. */
  function Level(H: PairHash, ids: seq<Hash>, k: nat): seq<Hash> {
    seq(CalcTreeWidth(|ids|, k), i requires 0 <= i < CalcTreeWidth(|ids|, k) => CalcHash(H, ids, k, i))
  }

  /** The levels below height k, one after the other. */
  function Levels(H: PairHash, ids: seq<Hash>, k: nat): seq<Hash> {
    if k == 0 then [] else Levels(H, ids, k - 1) + Level(H, ids, k - 1)
  }

  /** BuildMerkleTree: the array holds the levels up to the root, which is its last element. */
  method BuildMerkleTree(H: PairHash, vtx: seq<Hash>) returns (vMerkleTree: seq<Hash>, root: Hash)
    ensures vtx == [] ==> vMerkleTree == [] && root == 0
    ensures vtx != [] ==> forall h: nat :: IsTreeHeight(|vtx|, h) ==>
              && 0 < CalcTreeWidth(|vtx|, h)
              && vMerkleTree == Levels(H, vtx, h + 1) && root == CalcHash(H, vtx, h, 0)
  {
    hide CalcTreeWidth, CalcHash;
    vMerkleTree := [];
    WidthStep(|vtx|, 0);
    for i := 0 to |vtx|
      invariant vMerkleTree == vtx[..i]
    {
      vMerkleTree := vMerkleTree + [vtx[i]];
    }
    BottomLevel(H, vtx);
    var j, nSize := 0, |vtx|;
    ghost var k: nat := 0;
    while nSize > 1
      invariant nSize == CalcTreeWidth(|vtx|, k)
      invariant vtx != [] ==> nSize >= 1
      invariant j == |Levels(H, vtx, k)| && vMerkleTree == Levels(H, vtx, k + 1)
      invariant forall l :: 0 <= l < k ==> CalcTreeWidth(|vtx|, l) > 1
      decreases nSize
    {
      WidthStep(|vtx|, k);
      vMerkleTree := AddLevel(H, vtx, vMerkleTree, j, nSize, k);
      j := j + nSize;
      k := k + 1;
      nSize := (nSize + 1) / 2;
    }
    root := if vMerkleTree == [] then 0 else vMerkleTree[|vMerkleTree| - 1];
    if vtx != [] {
      assert vMerkleTree[|vMerkleTree| - 1] == Level(H, vtx, k)[0];
      forall h: nat | IsTreeHeight(|vtx|, h) ensures h == k {
      }
    }
  }

  /** The inner loop of BuildMerkleTree: one more level from the last one, which starts at j. */
  method AddLevel(H: PairHash, ghost ids: seq<Hash>, below: seq<Hash>, j: nat, nSize: nat, ghost k: nat)
    returns (vMerkleTree: seq<Hash>)
    requires nSize == CalcTreeWidth(|ids|, k) && j == |Levels(H, ids, k)| && below == Levels(H, ids, k + 1)
    ensures vMerkleTree == Levels(H, ids, k + 2)
  {
    hide CalcTreeWidth, CalcHash, Levels;
    LevelsStep(H, ids, k);
    LevelsStep(H, ids, k + 1);
    WidthStep(|ids|, k);
    ghost var lower, upper := Level(H, ids, k), Level(H, ids, k + 1);
    vMerkleTree := below;
    var i := 0;
    while i < nSize
      invariant 0 <= i <= nSize + 1 && i % 2 == 0 && i / 2 <= |upper|
      invariant vMerkleTree == below + upper[..i / 2]
      decreases nSize - i
    {
      var i2 := if i + 1 < nSize - 1 then i + 1 else nSize - 1;
      LevelAbove(H, ids, k, i / 2);
      assert below[j + i] == lower[i] && below[j + i2] == lower[i2];
      vMerkleTree := vMerkleTree + [H(vMerkleTree[j + i], vMerkleTree[j + i2])];
      i := i + 2;
    }
    assert upper[..i / 2] == upper;
  }

  lemma LevelsStep(H: PairHash, ids: seq<Hash>, k: nat)
    ensures Levels(H, ids, k + 1) == Levels(H, ids, k) + Level(H, ids, k)
    ensures |Level(H, ids, k)| == CalcTreeWidth(|ids|, k)
  {
  }

  lemma BottomLevel(H: PairHash, ids: seq<Hash>)
    ensures Levels(H, ids, 1) == Level(H, ids, 0) == ids && Levels(H, ids, 0) == []
  {
    WidthStep(|ids|, 0);
    forall i | 0 <= i < |ids| ensures CalcHash(H, ids, 0, i) == ids[i] {
      LeafHash(H, ids, i);
    }
    assert Levels(H, ids, 1) == [] + Level(H, ids, 0);
  }

  /** A node from the level below, the last one repeated when the level is odd. */
  lemma LevelAbove(H: PairHash, ids: seq<Hash>, k: nat, pos: nat)
    requires 2 * pos < CalcTreeWidth(|ids|, k)
    ensures pos < CalcTreeWidth(|ids|, k + 1)
    ensures var w := CalcTreeWidth(|ids|, k);
            Level(H, ids, k + 1)[pos] ==
            H(Level(H, ids, k)[2 * pos], Level(H, ids, k)[if 2 * pos + 1 < w then 2 * pos + 1 else w - 1])
  {
    WidthStep(|ids|, k);
    hide CalcTreeWidth;
  }

  // ---------- branches

  /** n ^ 1. */
  function Sibling(n: nat): nat {
    if n % 2 == 0 then n + 1 else n - 1
  }

  function BranchAt(H: PairHash, ids: seq<Hash>, k: nat, index: nat): Hash
    requires index < CalcTreeWidth(|ids|, k)
  {
    var last := CalcTreeWidth(|ids|, k) - 1;
    CalcHash(H, ids, k, if Sibling(index) < last then Sibling(index) else last)
  }

  /** branch lists the siblings on the way up from leaf `index`. */
  ghost predicate IsBranchOf(H: PairHash, ids: seq<Hash>, branch: seq<Hash>, index: nat) {
    forall k :: 0 <= k < |branch| ==>
      Up(index, k) < CalcTreeWidth(|ids|, k) && branch[k] == BranchAt(H, ids, k, Up(index, k))
  }

  lemma BranchEntry(H: PairHash, ids: seq<Hash>, branch: seq<Hash>, index: nat, k: nat)
    requires IsBranchOf(H, ids, branch, index) && k < |branch|
    ensures Up(index, k) < CalcTreeWidth(|ids|, k) && branch[k] == BranchAt(H, ids, k, Up(index, k))
  {
  }

  /** nIndex >> k. */
  function Up(index: nat, k: nat): nat {
    if k == 0 then index else Up(index, k - 1) / 2
  }

  lemma {:induction false} UpInTree(n: nat, index: nat, k: nat)
    requires index < n
    ensures Up(index, k) < CalcTreeWidth(n, k)
  {
    if k == 0 {
      WidthStep(n, 0);
    } else {
      UpInTree(n, index, k - 1);
      WidthStep(n, k - 1);
    }
  }

  /** GetMerkleBranch: the sibling on every level below the root. */
  method GetMerkleBranch(H: PairHash, vtx: seq<Hash>, vMerkleTree: seq<Hash>, index: nat, ghost h: nat)
    returns (vMerkleBranch: seq<Hash>)
    requires index < |vtx| && IsTreeHeight(|vtx|, h) && vMerkleTree == Levels(H, vtx, h + 1)
    ensures |vMerkleBranch| == h && IsBranchOf(H, vtx, vMerkleBranch, index)
  {
    hide CalcTreeWidth, CalcHash, Levels, Up;
    vMerkleBranch := [];
    UpStep(index, 0);
    LevelsNone(H, vtx);
    var nIndex, j, nSize := index, 0, |vtx|;
    WidthStep(|vtx|, 0);
    ghost var k := 0;
    while nSize > 1
      invariant k <= h && nSize == CalcTreeWidth(|vtx|, k) && nIndex == Up(index, k)
      invariant j == |Levels(H, vtx, k)| && |vMerkleBranch| == k
      invariant IsBranchOf(H, vtx, vMerkleBranch, index)
      decreases nSize
    {
      UpInTree(|vtx|, index, k);
      UpStep(index, k);
      WidthStep(|vtx|, k);
      LevelsStep(H, vtx, k);
      var i := if Sibling(nIndex) < nSize - 1 then Sibling(nIndex) else nSize - 1;
      LevelsPrefix(H, vtx, k + 1, h + 1);
      assert Levels(H, vtx, k + 1)[j + i] == Level(H, vtx, k)[i];
      vMerkleBranch := vMerkleBranch + [vMerkleTree[j + i]];
      nIndex := nIndex / 2;
      j := j + nSize;
      k := k + 1;
      nSize := (nSize + 1) / 2;
    }
  }

  lemma LevelsNone(H: PairHash, ids: seq<Hash>)
    ensures Levels(H, ids, 0) == []
  {
  }

  lemma UpStep(index: nat, k: nat)
    ensures Up(index, 0) == index && Up(index, k + 1) == Up(index, k) / 2
  {
  }

  lemma {:induction false} LevelsPrefix(H: PairHash, ids: seq<Hash>, k: nat, h: nat)
    requires k <= h
    ensures Levels(H, ids, k) <= Levels(H, ids, h)
  {
    if k < h {
      LevelsPrefix(H, ids, k, h - 1);
    }
  }

  /** CheckMerkleBranch after the first k steps. */
  function Folded(H: PairHash, hash: Hash, branch: seq<Hash>, nIndex: int): Hash {
    if branch == [] then hash
    else
      var last := |branch| - 1;
      var below := Folded(H, hash, branch[..last], nIndex);
      if UpInt(nIndex, last) % 2 == 1 then H(branch[last], below) else H(below, branch[last])
  }

  function UpInt(index: int, k: nat): int {
    if k == 0 then index else UpInt(index, k - 1) / 2
  }

  method CheckMerkleBranch(H: PairHash, hash: Hash, vMerkleBranch: seq<Hash>, nIndex: int) returns (r: Hash)
    ensures r == if nIndex == -1 then 0 else Folded(H, hash, vMerkleBranch, nIndex)
  {
    if nIndex == -1 {
      return 0;
    }
    r := hash;
    var index := nIndex;
    for i := 0 to |vMerkleBranch|
      invariant r == Folded(H, hash, vMerkleBranch[..i], nIndex) && index == UpInt(nIndex, i)
    {
      assert vMerkleBranch[..i + 1][..i] == vMerkleBranch[..i];
      r := if index % 2 == 1 then H(vMerkleBranch[i], r) else H(r, vMerkleBranch[i]);
      index := index / 2;
    }
    assert vMerkleBranch[..|vMerkleBranch|] == vMerkleBranch;
  }

  lemma {:induction false} UpIsUpInt(index: nat, k: nat)
    ensures Up(index, k) == UpInt(index, k)
  {
    if k > 0 {
      UpIsUpInt(index, k - 1);
    }
  }

  /** Folding a txid with its branch climbs the tree node by node. */
  lemma {:induction false} BranchClimbs(H: PairHash, ids: seq<Hash>, branch: seq<Hash>, index: nat, k: nat)
    requires index < |ids| && k <= |branch|
    requires IsBranchOf(H, ids, branch, index)
    ensures Up(index, k) < CalcTreeWidth(|ids|, k)
    ensures Folded(H, ids[index], branch[..k], index) == CalcHash(H, ids, k, Up(index, k))
  {
    hide CalcTreeWidth, Pow2, CalcHash, Up, UpInt, IsBranchOf, BranchAt, Sibling;
    UpInTree(|ids|, index, k);
    UpStep(index, 0);
    if k == 0 {
      LeafHash(H, ids, index);
    } else {
      BranchEntry(H, ids, branch, index, k - 1);
      BranchClimbs(H, ids, branch, index, k - 1);
      assert branch[..k][..k - 1] == branch[..k - 1];
      UpIsUpInt(index, k - 1);
      UpStep(index, k - 1);
      ClimbOne(H, ids, k - 1, Up(index, k - 1));
    }
  }

  /** A node and its sibling, in the order of their positions, give their parent. */
  lemma ClimbOne(H: PairHash, ids: seq<Hash>, k: nat, pos: nat)
    requires pos < CalcTreeWidth(|ids|, k)
    ensures pos / 2 < CalcTreeWidth(|ids|, k + 1)
    ensures CalcHash(H, ids, k + 1, pos / 2) ==
            if pos % 2 == 1 then H(BranchAt(H, ids, k, pos), CalcHash(H, ids, k, pos))
            else H(CalcHash(H, ids, k, pos), BranchAt(H, ids, k, pos))
  {
    WidthStep(|ids|, k);
    hide CalcTreeWidth, Pow2;
    var half := pos / 2;
    if pos % 2 == 1 {
      assert pos == 2 * half + 1 && Sibling(pos) == 2 * half;
    } else {
      assert pos == 2 * half;
    }
  }

  /** The branch of any transaction leads from its txid to the root. */
  lemma BranchReachesRoot(H: PairHash, ids: seq<Hash>, branch: seq<Hash>, index: nat, h: nat)
    requires index < |ids| && IsTreeHeight(|ids|, h) && |branch| == h
    requires IsBranchOf(H, ids, branch, index)
    ensures 0 < CalcTreeWidth(|ids|, h) && Folded(H, ids[index], branch, index) == CalcHash(H, ids, h, 0)
  {
    hide CalcTreeWidth, Pow2, CalcHash, Up, Folded, IsBranchOf;
    RootRange(|ids|, h);
    BranchClimbs(H, ids, branch, index, h);
    assert branch[..h] == branch;
  }
}
