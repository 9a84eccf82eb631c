/** CreateNewBlock: which pooled transactions go into a new block, and in which order. */
module BlockTemplates {
  import opened Basics
  import opened Transactions
  import opened CoinsRules
  import opened Ledger
  import opened BlockRules
  import opened CoinsViews
  import opened Connecting
  import opened Subsidy

  const MIN_TX_FEE: real := 100000.0
  const FREE_PRIORITY: real := 230400000.0

  /** TxPriority: an entry of the priority queue. */
  datatype Entry = Entry(dPriority: real, dFeePerKb: real, tx: Tx)

  /** COrphan: a transaction that waits for pooled parents. Pointers to it are its position in vOrphan. */
  datatype Orphan = Orphan(tx: Tx, setDependsOn: set<Hash>, dPriority: real, dFeePerKb: real)

  function EntryOf(o: Orphan): Entry {
    Entry(o.dPriority, o.dFeePerKb, o.tx)
  }

  type Dependers = map<Hash, seq<nat>>

  /** TxPriorityCompare */
  predicate Less(a: Entry, b: Entry, byFee: bool) {
    if byFee then
      if a.dFeePerKb == b.dFeePerKb then a.dPriority < b.dPriority else a.dFeePerKb < b.dFeePerKb
    else
      if a.dPriority == b.dPriority then a.dFeePerKb < b.dFeePerKb else a.dPriority < b.dPriority
  }

  /** The hashes among the first n inputs for which the view m has no coins. */
  function Deps(m: CoinMap, tx: Tx, n: nat): set<Hash>
    requires n <= |tx.vin|
  {
    set i | 0 <= i < n && tx.vin[i].prevout.hash !in m :: tx.vin[i].prevout.hash
  }

  function AllDeps(m: CoinMap, tx: Tx): set<Hash> {
    Deps(m, tx, |tx.vin|)
  }

  predicate Missing(m: CoinMap, pool: Pool, tx: Tx, i: nat)
    requires i < |tx.vin|
  {
    tx.vin[i].prevout.hash !in m && tx.vin[i].prevout.hash !in pool
  }

  // ---------- priority and fee rate

  /** The output is in the view, or else among those of a pooled transaction. */
  predicate Found(m: CoinMap, pool: Pool, o: OutPoint) {
    if o.hash in m then o.n < |m[o.hash].vout| else o.hash in pool && o.n < |pool[o.hash].vout|
  }

  function ValueOf(m: CoinMap, pool: Pool, o: OutPoint): int
    requires Found(m, pool, o)
  {
    if o.hash in m then m[o.hash].vout[o.n].nValue else pool[o.hash].vout[o.n].nValue
  }

  ghost predicate FoundUpTo(m: CoinMap, pool: Pool, tx: Tx, n: nat)
    requires n <= |tx.vin|
  {
    forall i :: 0 <= i < n ==> Found(m, pool, tx.vin[i].prevout)
  }

  ghost function TotalIn(m: CoinMap, pool: Pool, tx: Tx, n: nat): int
    requires n <= |tx.vin| && FoundUpTo(m, pool, tx, n)
  {
    if n == 0 then 0 else TotalIn(m, pool, tx, n - 1) + ValueOf(m, pool, tx.vin[n - 1].prevout)
  }

  /** Value times age, over the inputs that are in the view. */
  ghost function AgedIn(m: CoinMap, pool: Pool, tx: Tx, height: nat, n: nat): real
    requires n <= |tx.vin| && FoundUpTo(m, pool, tx, n)
  {
    if n == 0 then 0.0
    else
      var o := tx.vin[n - 1].prevout;
      AgedIn(m, pool, tx, height, n - 1)
      + if o.hash in m then Product(ValueOf(m, pool, o) as real, (height - m[o.hash].nHeight) as real) else 0.0
  }

  function Product(x: real, y: real): real {
    x * y
  }

  /** Priority is value times age for each byte, the fee rate what the outputs leave for each thousand. */
  ghost function Scored(m: CoinMap, pool: Pool, height: nat, tx: Tx): Entry
    requires tx.size > 0 && FoundUpTo(m, pool, tx, |tx.vin|)
  {
    Entry(AgedIn(m, pool, tx, height, |tx.vin|) / tx.size as real,
          (TotalIn(m, pool, tx, |tx.vin|) - ValueSum(tx.vout)) as real / (tx.size as real / 1000.0), tx)
  }

  /** The pooled transactions that may enter a block of this height: no coinbase, final, and with every input in the
      view or pooled. */
  ghost function Candidates(m: CoinMap, pool: Pool, height: nat, isFinal: Tx -> bool): iset<Entry> {
    iset e: Entry | && InPool(pool, e.tx) && !e.tx.IsCoinBase() && isFinal(e.tx)
                    && e.tx.size > 0 && FoundUpTo(m, pool, e.tx, |e.tx.vin|)
                    && e == Scored(m, pool, height, e.tx)
  }

  /** Of the transactions that are looked at, the inputs that are reached have a transaction with enough outputs. The
      source indexes these vectors unchecked. */
  ghost predicate Priceable(m: CoinMap, pool: Pool, isFinal: Tx -> bool) {
    && (forall id :: id in pool && !pool[id].IsCoinBase() && isFinal(pool[id]) ==> pool[id].size > 0)
    && (forall id, i :: id in pool && !pool[id].IsCoinBase() && isFinal(pool[id])
                        && 0 <= i < |pool[id].vin| && (forall j :: 0 <= j <= i ==> !Missing(m, pool, pool[id], j)) ==>
          Found(m, pool, pool[id].vin[i].prevout))
  }

  ghost predicate PoolOk(pool: Pool) {
    forall id :: id in pool ==> pool[id].hash == id && WellFormed(pool[id])
  }

  /** Before a pooled transaction's first input that is nowhere to be found, none waits for a pooled parent. (The
      source calls any such input an error that never happens, and pops the orphan while pointers to it remain.) */
  ghost predicate NoneHalfMissing(m: CoinMap, pool: Pool) {
    forall id, i :: id in pool && 0 <= i < |pool[id].vin| && Missing(m, pool, pool[id], i) ==>
      exists j :: 0 <= j <= i && Missing(m, pool, pool[id], j) && Deps(m, pool[id], j) == {}
  }

  /** mapDependers lists orphan k under hash h. */
  predicate Listed(dependers: Dependers, h: Hash, k: nat) {
    h in dependers && k in dependers[h]
  }

  /** While collecting: mapDependers is the inverse of the dependency sets. */
  ghost predicate Linked(orphans: seq<Orphan>, dependers: Dependers) {
    forall h: Hash, k: nat :: Listed(dependers, h, k) <==> k < |orphans| && h in orphans[k].setDependsOn
  }

  /** While selecting: an orphan still depends on what has not been taken, and mapDependers keeps the original
      dependencies. */
  ghost predicate OrphansOk(m: CoinMap, pool: Pool, taken: set<Hash>, orphans: seq<Orphan>, dependers: Dependers) {
    && (forall k :: 0 <= k < |orphans| ==>
          && InPool(pool, orphans[k].tx)
          && orphans[k].setDependsOn == AllDeps(m, orphans[k].tx) - taken)
    && (forall h: Hash, k: nat :: Listed(dependers, h, k) <==> k < |orphans| && h in AllDeps(m, orphans[k].tx))
  }

  predicate InPool(pool: Pool, tx: Tx) {
    tx.hash in pool && pool[tx.hash] == tx
  }

  /** What is in the queue is pooled, ready and not dequeued before. */
  ghost predicate QueueOk(m: CoinMap, pool: Pool, taken: set<Hash>, seen: set<Hash>, vec: seq<Entry>) {
    && (forall i :: 0 <= i < |vec| ==>
          InPool(pool, vec[i].tx) && AllDeps(m, vec[i].tx) <= taken && vec[i].tx.hash !in seen
          && !vec[i].tx.IsCoinBase())
    && (forall i, j :: 0 <= i < j < |vec| ==> vec[i].tx.hash != vec[j].tx.hash)
  }

  /** No transaction is in two places: waiting orphans are neither queued nor dequeued. */
  ghost predicate Separate(seen: set<Hash>, vec: seq<Entry>, orphans: seq<Orphan>) {
    && (forall k :: 0 <= k < |orphans| && orphans[k].setDependsOn != {} ==> Apart(seen, vec, orphans[k].tx.hash))
    && (forall k, l :: 0 <= k < l < |orphans| ==> orphans[k].tx.hash != orphans[l].tx.hash)
    && (forall k :: 0 <= k < |orphans| ==> !orphans[k].tx.IsCoinBase())
  }

  ghost predicate Apart(seen: set<Hash>, vec: seq<Entry>, h: Hash) {
    h !in seen && forall i :: 0 <= i < |vec| ==> vec[i].tx.hash != h
  }

  // ---------- the priority queue

  /** pop_heap and pop_back: a greatest entry leaves. */
  method PopBest(vec: seq<Entry>, byFee: bool) returns (best: Entry, rest: seq<Entry>)
    requires vec != []
    ensures exists i :: 0 <= i < |vec| && best == vec[i] && rest == vec[..i] + vec[i + 1..]
    ensures forall k :: 0 <= k < |vec| ==> !Less(best, vec[k], byFee)
  {
    var b, i := 0, 1;
    while i < |vec|
      invariant 0 <= b < i <= |vec|
      invariant forall k :: 0 <= k < i ==> !Less(vec[b], vec[k], byFee)
    {
      if Less(vec[b], vec[i], byFee) {
        b := i;
      }
      i := i + 1;
    }
    return vec[b], vec[..b] + vec[b + 1..];
  }

  lemma PopKeeps(m: CoinMap, pool: Pool, taken: set<Hash>, seen: set<Hash>, vec: seq<Entry>, orphans: seq<Orphan>,
                 i: nat)
    requires i < |vec| && QueueOk(m, pool, taken, seen, vec) && Separate(seen, vec, orphans)
    ensures var rest := vec[..i] + vec[i + 1..];
            var seen' := seen + {vec[i].tx.hash};
            QueueOk(m, pool, taken, seen', rest) && Separate(seen', rest, orphans)
  {
    var rest := vec[..i] + vec[i + 1..];
    assert forall k :: 0 <= k < |rest| ==> rest[k] == if k < i then vec[k] else vec[k + 1];
    forall k | 0 <= k < |orphans| && orphans[k].setDependsOn != {}
      ensures Apart(seen + {vec[i].tx.hash}, rest, orphans[k].tx.hash)
    {
      assert Apart(seen, vec, orphans[k].tx.hash);
    }
  }

  // ---------- releasing dependers

  /** Orphan k waits for h alone. */
  predicate WaitsFor(orphans: seq<Orphan>, k: nat, h: Hash) {
    k < |orphans| && orphans[k].setDependsOn == {h}
  }

  /** Orphan k no longer depends on h; when nothing is left it joins the queue. */
  method ReleaseOne(ghost m: CoinMap, ghost pool: Pool, ghost taken: set<Hash>, ghost seen: set<Hash>,
                    vec: seq<Entry>, orphans: seq<Orphan>, k: nat, h: Hash)
    returns (vec': seq<Entry>, orphans': seq<Orphan>)
    requires k < |orphans| && InPool(pool, orphans[k].tx)
    requires QueueOk(m, pool, taken, seen, vec) && Separate(seen, vec, orphans) && h in taken
    requires orphans[k].setDependsOn - {h} == AllDeps(m, orphans[k].tx) - taken
    ensures orphans' == orphans[k := orphans[k].(setDependsOn := orphans[k].setDependsOn - {h})]
    ensures QueueOk(m, pool, taken, seen, vec') && Separate(seen, vec', orphans')
    ensures vec' == if WaitsFor(orphans, k, h) then vec + [EntryOf(orphans[k])] else vec
  {
    vec', orphans' := vec, orphans;
    var o := orphans[k];
    if o.setDependsOn != {} {
      assert Apart(seen, vec, o.tx.hash);
      orphans' := orphans[k := o.(setDependsOn := o.setDependsOn - {h})];
      OnlyOne(o.setDependsOn, h);
      if orphans'[k].setDependsOn == {} {
        Nothing(AllDeps(m, o.tx), taken);
        vec' := vec + [Entry(o.dPriority, o.dFeePerKb, o.tx)];
      }
      forall l | 0 <= l < |orphans'| && orphans'[l].setDependsOn != {}
        ensures Apart(seen, vec', orphans'[l].tx.hash)
      {
        assert orphans[l].tx == orphans'[l].tx;
        assert Apart(seen, vec, orphans[l].tx.hash);
      }
    } else {
      assert o.setDependsOn - {h} == o.setDependsOn;
    }
  }

  lemma OnlyOne(deps: set<Hash>, h: Hash)
    requires deps != {}
    ensures deps - {h} == {} <==> deps == {h}
  {
    if deps - {h} == {} {
      Nothing(deps, {h});
    }
  }

  lemma Nothing(a: set<Hash>, b: set<Hash>)
    requires a - b == {}
    ensures a <= b
  {
    forall x | x in a ensures x in b {
      assert x !in a - b;
    }
  }

  lemma Taken(deps: set<Hash>, taken: set<Hash>, h: Hash)
    ensures deps - taken - {h} == deps - (taken + {h})
  {
  }

  /** The loop over mapDependers[h] after the transaction with hash h was taken: what waited for it alone joins the
      queue, and nothing else does. */
  method Release(ghost m: CoinMap, ghost pool: Pool, ghost taken: set<Hash>, ghost seen: set<Hash>,
                 vec: seq<Entry>, orphans: seq<Orphan>, dependers: Dependers, h: Hash)
    returns (vec': seq<Entry>, orphans': seq<Orphan>)
    requires OrphansOk(m, pool, taken, orphans, dependers)
    requires QueueOk(m, pool, taken + {h}, seen, vec) && Separate(seen, vec, orphans)
    ensures OrphansOk(m, pool, taken + {h}, orphans', dependers)
    ensures QueueOk(m, pool, taken + {h}, seen, vec') && Separate(seen, vec', orphans')
    ensures |orphans'| == |orphans|
    ensures forall k :: 0 <= k < |orphans| ==>
              orphans'[k] == orphans[k].(setDependsOn := orphans[k].setDependsOn - {h})
    ensures forall e :: e in vec' <==> e in vec || exists k: nat :: WaitsFor(orphans, k, h) && EntryOf(orphans[k]) == e
  {
    hide QueueOk, Separate, AllDeps;
    vec', orphans' := vec, orphans;
    var list := if h in dependers then dependers[h] else [];
    var j := 0;
    while j < |list|
      invariant 0 <= j <= |list| && |orphans'| == |orphans|
      invariant QueueOk(m, pool, taken + {h}, seen, vec') && Separate(seen, vec', orphans')
      invariant forall k :: 0 <= k < |orphans| ==>
                  orphans'[k] == if k in list[..j] then orphans[k].(setDependsOn := orphans[k].setDependsOn - {h})
                                 else orphans[k]
      invariant forall e :: e in vec' <==>
                  e in vec || exists k: nat :: k in list[..j] && WaitsFor(orphans, k, h) && EntryOf(orphans[k]) == e
    {
      var k := list[j];
      assert Listed(dependers, h, k);
      Taken(AllDeps(m, orphans[k].tx), taken, h);
      assert orphans'[k].setDependsOn - {h} == orphans[k].setDependsOn - {h};
      vec', orphans' := ReleaseOne(m, pool, taken + {h}, seen, vec', orphans', k, h);
      assert list[..j + 1] == list[..j] + [k];
      j := j + 1;
    }
    assert list[..j] == list;
    forall k | 0 <= k < |orphans|
      ensures orphans'[k].setDependsOn == AllDeps(m, orphans[k].tx) - (taken + {h})
      ensures orphans'[k] == orphans[k].(setDependsOn := orphans[k].setDependsOn - {h})
      ensures WaitsFor(orphans, k, h) ==> k in list
    {
      Taken(AllDeps(m, orphans[k].tx), taken, h);
      if k !in list {
        assert !Listed(dependers, h, k);
        assert h !in orphans[k].setDependsOn;
        assert orphans[k].setDependsOn - {h} == orphans[k].setDependsOn;
      }
    }
  }

  // ---------- collecting the pool

  lemma DepsStep(m: CoinMap, tx: Tx, i: nat)
    requires i < |tx.vin|
    ensures Deps(m, tx, i + 1) ==
            Deps(m, tx, i) + if tx.vin[i].prevout.hash !in m then {tx.vin[i].prevout.hash} else {}
  {
  }

  lemma LinkMore(orphans: seq<Orphan>, dependers: Dependers, k: nat, h: Hash)
    requires Linked(orphans, dependers) && k < |orphans|
    ensures Linked(orphans[k := orphans[k].(setDependsOn := orphans[k].setDependsOn + {h})],
                   dependers[h := (if h in dependers then dependers[h] else []) + [k]])
  {
    var list := if h in dependers then dependers[h] else [];
    var orphans' := orphans[k := orphans[k].(setDependsOn := orphans[k].setDependsOn + {h})];
    var dependers' := dependers[h := list + [k]];
    forall g: Hash, l: nat
      ensures Listed(dependers', g, l) <==> l < |orphans'| && g in orphans'[l].setDependsOn
    {
      assert Listed(dependers, g, l) <==> l < |orphans| && g in orphans[l].setDependsOn;
      if g == h {
        assert Listed(dependers', g, l) <==> l in list + [k];
      }
    }
  }

  lemma LinkNew(orphans: seq<Orphan>, dependers: Dependers, o: Orphan)
    requires Linked(orphans, dependers) && o.setDependsOn == {}
    ensures Linked(orphans + [o], dependers)
  {
    forall g: Hash, l: nat
      ensures Listed(dependers, g, l) <==> l < |orphans + [o]| && g in (orphans + [o])[l].setDependsOn
    {
      assert Listed(dependers, g, l) <==> l < |orphans| && g in orphans[l].setDependsOn;
    }
  }

  lemma NotHalfMissing(m: CoinMap, pool: Pool, id: Hash, i: nat)
    requires NoneHalfMissing(m, pool) && id in pool && i < |pool[id].vin| && Missing(m, pool, pool[id], i)
    requires forall j :: 0 <= j < i ==> !Missing(m, pool, pool[id], j)
    ensures Deps(m, pool[id], i) == {}
  {
  }

  lemma InputFound(m: CoinMap, pool: Pool, isFinal: Tx -> bool, id: Hash, i: nat)
    requires Priceable(m, pool, isFinal) && id in pool && !pool[id].IsCoinBase() && isFinal(pool[id])
    requires i < |pool[id].vin| && forall j :: 0 <= j <= i ==> !Missing(m, pool, pool[id], j)
    ensures Found(m, pool, pool[id].vin[i].prevout)
  {
  }

  /** Which inputs of a pooled transaction wait for a pooled parent, and what the inputs are worth and have aged. */
  method Scan(view: ViewCache, pool: Pool, ghost isFinal: Tx -> bool, height: nat, id: Hash, orphans: seq<Orphan>,
              dependers: Dependers)
    returns (fMissingInputs: bool, waits: bool, orphans': seq<Orphan>, dependers': Dependers, nTotalIn: int,
             dPriority: real)
    requires view.Valid() && id in pool && NoneHalfMissing(view.Contents(), pool) && Linked(orphans, dependers)
    requires Priceable(view.Contents(), pool, isFinal) && !pool[id].IsCoinBase() && isFinal(pool[id])
    modifies view.views
    ensures !fMissingInputs ==>
              && FoundUpTo(view.Contents(), pool, pool[id], |pool[id].vin|)
              && nTotalIn == TotalIn(view.Contents(), pool, pool[id], |pool[id].vin|)
              && dPriority == AgedIn(view.Contents(), pool, pool[id], height, |pool[id].vin|)
    ensures view.Contents() == old(view.Contents()) && view.Best() == old(view.Best()) && view.BelowKept()
    ensures fMissingInputs <==> exists i :: 0 <= i < |pool[id].vin| && Missing(view.Contents(), pool, pool[id], i)
    ensures fMissingInputs ==> orphans' == orphans && dependers' == dependers
    ensures !fMissingInputs ==> waits == (AllDeps(view.Contents(), pool[id]) != {})
    ensures !fMissingInputs && !waits ==> orphans' == orphans && dependers' == dependers
    ensures !fMissingInputs && waits ==>
              && orphans' == orphans + [Orphan(pool[id], AllDeps(view.Contents(), pool[id]), 0.0, 0.0)]
              && Linked(orphans', dependers')
  {
    hide ViewCache.Contents, ViewCache.Best, NoneHalfMissing, Linked, Missing, Priceable, Product;
    ghost var m := view.Contents();
    var tx := pool[id];
    fMissingInputs, waits, orphans', dependers' := false, false, orphans, dependers;
    nTotalIn, dPriority := 0, 0.0;
    var i := 0;
    while i < |tx.vin|
      invariant 0 <= i <= |tx.vin|
      invariant view.Contents() == m && view.Best() == old(view.Best()) && view.BelowKept()
      invariant forall j :: 0 <= j < i ==> !Missing(m, pool, tx, j)
      invariant waits == (Deps(m, tx, i) != {})
      invariant orphans' == if waits then orphans + [Orphan(tx, Deps(m, tx, i), 0.0, 0.0)] else orphans
      invariant !waits ==> dependers' == dependers
      invariant Linked(orphans', dependers')
      invariant FoundUpTo(m, pool, tx, i)
      invariant nTotalIn == TotalIn(m, pool, tx, i) && dPriority == AgedIn(m, pool, tx, height, i)
    {
      var h := tx.vin[i].prevout.hash;
      var have := view.HaveCoins(h);
      DepsStep(m, tx, i);
      assert have ==> Deps(m, tx, i) + {} == Deps(m, tx, i);
      assert have || h in pool <==> !Missing(m, pool, tx, i) by {
        MissingIs(m, pool, tx, i);
      }
      if !have {
        if h !in pool {
          fMissingInputs := true;
          if waits {
            orphans' := orphans'[..|orphans'| - 1];
          }
          NotHalfMissing(m, pool, id, i);
          return;
        }
        if !waits {
          LinkNew(orphans', dependers', Orphan(tx, {}, 0.0, 0.0));
          orphans' := orphans' + [Orphan(tx, {}, 0.0, 0.0)];
          waits := true;
          assert Deps(m, tx, i) == {};
        }
        InputFound(m, pool, isFinal, id, i);
        var k := |orphans'| - 1;
        LinkMore(orphans', dependers', k, h);
        dependers' := dependers'[h := (if h in dependers' then dependers'[h] else []) + [k]];
        orphans' := orphans'[k := orphans'[k].(setDependsOn := orphans'[k].setDependsOn + {h})];
        assert orphans' == orphans + [Orphan(tx, Deps(m, tx, i) + {h}, 0.0, 0.0)];
        assert Deps(m, tx, i + 1) != {} by {
          assert h in Deps(m, tx, i + 1);
        }
        nTotalIn := nTotalIn + pool[h].vout[tx.vin[i].prevout.n].nValue;
      } else {
        InputFound(m, pool, isFinal, id, i);
        var coins := view.GetCoins(h);
        var nValueIn := coins.value.vout[tx.vin[i].prevout.n].nValue;
        nTotalIn := nTotalIn + nValueIn;
        var nConf := height - coins.value.nHeight;
        dPriority := dPriority + Product(nValueIn as real, nConf as real);
      }
      i := i + 1;
    }
  }

  lemma MissingIs(m: CoinMap, pool: Pool, tx: Tx, i: nat)
    requires i < |tx.vin|
    ensures Missing(m, pool, tx, i) <==> tx.vin[i].prevout.hash !in m && tx.vin[i].prevout.hash !in pool
  {
  }

  /** What holds while some of the pool (all but `todo`) has been looked at. */
  ghost predicate Collected(m: CoinMap, pool: Pool, todo: set<Hash>, vec: seq<Entry>, orphans: seq<Orphan>,
                            dependers: Dependers)
  {
    && Linked(orphans, dependers)
    && QueueOk(m, pool, {}, {}, vec) && Separate({}, vec, orphans)
    && (forall i :: 0 <= i < |vec| ==> vec[i].tx.hash !in todo)
    && (forall k :: 0 <= k < |orphans| ==>
          InPool(pool, orphans[k].tx) && orphans[k].tx.hash !in todo
          && orphans[k].setDependsOn == AllDeps(m, orphans[k].tx))
  }

  ghost predicate Waits(orphans: seq<Orphan>, e: Entry) {
    exists k :: 0 <= k < |orphans| && EntryOf(orphans[k]) == e
  }

  /** Every candidate outside `todo` is in the queue when it depends on nothing, among the orphans otherwise, and
      nothing else is in either. */
  ghost predicate Placed(m: CoinMap, cands: iset<Entry>, todo: set<Hash>, vec: seq<Entry>, orphans: seq<Orphan>) {
    && (forall e :: e in vec <==> e in cands && e.tx.hash !in todo && AllDeps(m, e.tx) == {})
    && (forall e :: Waits(orphans, e) <==> e in cands && e.tx.hash !in todo && AllDeps(m, e.tx) != {})
  }

  ghost predicate OnlyOneWith(cands: iset<Entry>, e: Entry) {
    e in cands && forall e' :: e' in cands && e'.tx.hash == e.tx.hash ==> e' == e
  }

  lemma CollectReady(m: CoinMap, pool: Pool, cands: iset<Entry>, todo: set<Hash>, vec: seq<Entry>, orphans: seq<Orphan>,
                     dependers: Dependers, e: Entry)
    requires Collected(m, pool, todo, vec, orphans, dependers) && InPool(pool, e.tx) && e.tx.hash in todo
    requires AllDeps(m, e.tx) == {} && !e.tx.IsCoinBase()
    requires Placed(m, cands, todo, vec, orphans) && OnlyOneWith(cands, e)
    ensures Collected(m, pool, todo - {e.tx.hash}, vec + [e], orphans, dependers)
    ensures Placed(m, cands, todo - {e.tx.hash}, vec + [e], orphans)
  {
    hide Linked, AllDeps;
    forall k | 0 <= k < |orphans| && orphans[k].setDependsOn != {}
      ensures Apart({}, vec + [e], orphans[k].tx.hash)
    {
      assert Apart({}, vec, orphans[k].tx.hash);
    }
  }

  lemma CollectWaiting(m: CoinMap, pool: Pool, cands: iset<Entry>, todo: set<Hash>, vec: seq<Entry>,
                       orphans: seq<Orphan>, dependers: Dependers, o: Orphan, dependers': Dependers)
    requires Collected(m, pool, todo, vec, orphans, dependers) && InPool(pool, o.tx) && o.tx.hash in todo
    requires o.setDependsOn == AllDeps(m, o.tx) && !o.tx.IsCoinBase() && Linked(orphans + [o], dependers')
    requires Placed(m, cands, todo, vec, orphans) && OnlyOneWith(cands, EntryOf(o)) && o.setDependsOn != {}
    ensures Collected(m, pool, todo - {o.tx.hash}, vec, orphans + [o], dependers')
    ensures Placed(m, cands, todo - {o.tx.hash}, vec, orphans + [o])
  {
    hide Linked, AllDeps;
    var all := orphans + [o];
    forall k | 0 <= k < |all| && all[k].setDependsOn != {} ensures Apart({}, vec, all[k].tx.hash) {
      if k < |orphans| {
        assert Apart({}, vec, orphans[k].tx.hash);
      }
    }
    forall e ensures Waits(all, e) <==> Waits(orphans, e) || e == EntryOf(o) {
      if Waits(orphans, e) {
        var k :| 0 <= k < |orphans| && EntryOf(orphans[k]) == e;
        assert all[k] == orphans[k];
      }
      assert all[|orphans|] == o;
    }
  }

  /** Priorities are not among the links. */
  lemma Repriced(orphans: seq<Orphan>, dependers: Dependers, o: Orphan, o': Orphan)
    requires Linked(orphans + [o], dependers) && o'.setDependsOn == o.setDependsOn
    ensures Linked(orphans + [o'], dependers)
  {
    forall g: Hash, l: nat
      ensures Listed(dependers, g, l) <==> l < |orphans + [o']| && g in (orphans + [o'])[l].setDependsOn
    {
      assert Listed(dependers, g, l) <==> l < |orphans + [o]| && g in (orphans + [o])[l].setDependsOn;
    }
  }

  /** A pooled transaction is a candidate, under its one score, unless it is left aside. */
  lemma OnlyCandidate(m: CoinMap, pool: Pool, height: nat, isFinal: Tx -> bool, id: Hash)
    requires PoolOk(pool) && id in pool
    ensures var cands, tx := Candidates(m, pool, height, isFinal), pool[id];
            if tx.IsCoinBase() || !isFinal(tx) || exists i :: 0 <= i < |tx.vin| && Missing(m, pool, tx, i)
            then forall e :: e in cands ==> e.tx.hash != id
            else tx.size > 0 && FoundUpTo(m, pool, tx, |tx.vin|) ==> OnlyOneWith(cands, Scored(m, pool, height, tx))
  {
    hide AgedIn, TotalIn;
    var tx := pool[id];
    if i :| 0 <= i < |tx.vin| && Missing(m, pool, tx, i) {
      assert !Found(m, pool, tx.vin[i].prevout);
    }
  }

  lemma IsPriced(m: CoinMap, pool: Pool, isFinal: Tx -> bool, id: Hash)
    requires Priceable(m, pool, isFinal) && id in pool && !pool[id].IsCoinBase() && isFinal(pool[id])
    ensures pool[id].size > 0
  {
    hide Missing, Found;
  }

  /** Sorts the pool into the candidates that are ready and the orphans that wait; every candidate ends up in one of the
      two, and nothing else does. `isFinal` stands for the lock-time rule, `height` is that of the new block. */
  method Collect(view: ViewCache, pool: Pool, height: nat, isFinal: Tx -> bool)
    returns (vec: seq<Entry>, orphans: seq<Orphan>, dependers: Dependers)
    requires view.Valid() && PoolOk(pool) && NoneHalfMissing(view.Contents(), pool)
    requires Priceable(view.Contents(), pool, isFinal)
    modifies view.views
    ensures view.Contents() == old(view.Contents()) && view.Best() == old(view.Best()) && view.BelowKept()
    ensures QueueOk(view.Contents(), pool, {}, {}, vec) && Separate({}, vec, orphans)
    ensures OrphansOk(view.Contents(), pool, {}, orphans, dependers)
    ensures Placed(view.Contents(), Candidates(view.Contents(), pool, height, isFinal), {}, vec, orphans)
  {
    hide ViewCache.Contents, ViewCache.Best, NoneHalfMissing, AllDeps, Linked, QueueOk, Separate, OrphansOk, Missing,
         Collected, Placed, OnlyOneWith, Candidates, Priceable, AgedIn, TotalIn;
    ghost var m := view.Contents();
    ghost var cands := Candidates(m, pool, height, isFinal);
    vec, orphans, dependers := [], [], map[];
    var todo := pool.Keys;
    CollectNothing(m, pool, cands, height, isFinal);
    while todo != {}
      invariant todo <= pool.Keys
      invariant view.Contents() == m && view.Best() == old(view.Best()) && view.BelowKept()
      invariant Collected(m, pool, todo, vec, orphans, dependers) && Placed(m, cands, todo, vec, orphans)
      decreases todo
    {
      var id :| id in todo;
      var tx := pool[id];
      OnlyCandidate(m, pool, height, isFinal, id);
      if tx.IsCoinBase() || !isFinal(tx) {
        CollectLess(m, pool, cands, todo, vec, orphans, dependers, id);
        todo := todo - {id};
        continue;
      }
      CollectLinked(m, pool, todo, vec, orphans, dependers);
      var missing, waits, orphans', dependers', nTotalIn, dPriority :=
        Scan(view, pool, isFinal, height, id, orphans, dependers);
      if missing {
        CollectLess(m, pool, cands, todo, vec, orphans, dependers, id);
        todo := todo - {id};
        continue;
      }
      IsPriced(m, pool, isFinal, id);
      dPriority := dPriority / tx.size as real;
      var nValueOut := GetValueOut(tx);
      var dFeePerKb := (nTotalIn - nValueOut) as real / (tx.size as real / 1000.0);
      if waits {
        var k := |orphans'| - 1;
        var o := orphans'[k].(dPriority := dPriority, dFeePerKb := dFeePerKb);
        Repriced(orphans, dependers', orphans'[k], o);
        CollectWaiting(m, pool, cands, todo, vec, orphans, dependers, o, dependers');
        orphans, dependers := orphans'[k := o], dependers';
        assert orphans == orphans'[..k] + [o];
      } else {
        CollectReady(m, pool, cands, todo, vec, orphans, dependers, Entry(dPriority, dFeePerKb, tx));
        vec := vec + [Entry(dPriority, dFeePerKb, tx)];
      }
      todo := todo - {id};
    }
    CollectDone(m, pool, vec, orphans, dependers);
  }

  lemma CollectLess(m: CoinMap, pool: Pool, cands: iset<Entry>, todo: set<Hash>, vec: seq<Entry>, orphans: seq<Orphan>,
                    dependers: Dependers, id: Hash)
    requires Collected(m, pool, todo, vec, orphans, dependers) && Placed(m, cands, todo, vec, orphans)
    requires forall e :: e in cands ==> e.tx.hash != id
    ensures Collected(m, pool, todo - {id}, vec, orphans, dependers)
    ensures Placed(m, cands, todo - {id}, vec, orphans)
  {
  }

  lemma CollectLinked(m: CoinMap, pool: Pool, todo: set<Hash>, vec: seq<Entry>, orphans: seq<Orphan>,
                      dependers: Dependers)
    requires Collected(m, pool, todo, vec, orphans, dependers)
    ensures Linked(orphans, dependers)
  {
  }

  lemma CollectNothing(m: CoinMap, pool: Pool, cands: iset<Entry>, height: nat,
                       isFinal: Tx -> bool)
    requires PoolOk(pool) && cands == Candidates(m, pool, height, isFinal)
    ensures Collected(m, pool, pool.Keys, [], [], map[]) && Placed(m, cands, pool.Keys, [], [])
  {
  }

  lemma CollectDone(m: CoinMap, pool: Pool, vec: seq<Entry>, orphans: seq<Orphan>, dependers: Dependers)
    requires Collected(m, pool, {}, vec, orphans, dependers)
    ensures QueueOk(m, pool, {}, {}, vec) && Separate({}, vec, orphans)
    ensures OrphansOk(m, pool, {}, orphans, dependers)
  {
    hide AllDeps;
    assert forall s: set<Hash> :: s - {} == s;
  }

  // ---------- selecting

  const ZILLIONFLUX_FORK_HEIGHT: nat := 490_000

  function MaxBlockSize(height: nat): nat {
    if height < ZILLIONFLUX_FORK_HEIGHT then 200_000 else 1_000_000
  }

  function MaxBlockSigOps(height: nat): nat {
    MaxBlockSize(height) / 50
  }

  /** The checks of ConnectBlock, the P2SH and script rules included, under the template's own limit on signature
      operations, which grows with height. */
  function TemplateCtx(rules: Rules, height: nat): Ctx {
    Ctx(rules, height, true, true, MaxBlockSigOps(height))
  }

  /** The checks on a dequeued transaction that need the view; an accepted one is applied to it. */
  method AcceptTx(ctx: Ctx, view: ViewCache, tx: Tx, nBlockSigOps: nat) returns (ok: bool, nTxFees: int, nTxSigOps: nat)
    requires view.Valid() && GoodMap(view.Contents()) && WellFormed(tx) && !tx.IsCoinBase()
    requires view.Best() != null && view.Best().nHeight + 1 == ctx.height && 1 <= ctx.height < INT_LIMIT
    requires ctx.strict && ctx.scripts && nBlockSigOps + tx.sigOps < ctx.maxSigOps
    modifies view.views
    ensures view.Best() == old(view.Best()) && view.BelowKept() && GoodMap(view.Contents())
    ensures ok <==> TxChecks(ctx, old(view.Contents()), tx, nBlockSigOps).Some?
                    && TxChecks(ctx, old(view.Contents()), tx, nBlockSigOps).value.1 < ctx.maxSigOps
    ensures ok ==> TxChecks(ctx, old(view.Contents()), tx, nBlockSigOps) == Some((nTxFees, nBlockSigOps + nTxSigOps))
    ensures view.Contents() == if ok then UpdateCoins(old(view.Contents()), tx, ctx.height).0 else old(view.Contents())
    ensures nBlockSigOps + nTxSigOps < ctx.maxSigOps || !ok
  {
    hide ViewCache.Contents, ViewCache.Best;
    ghost var m := view.Contents();
    nTxFees, nTxSigOps := 0, tx.sigOps;
    ok := HaveAllInputs(view, tx.vin);
    if !ok {
      return;
    }
    nTxFees := GetFee(view, tx);
    var p2sh := GetP2SHSigOpCount(ctx.rules, view, tx);
    nTxSigOps := nTxSigOps + p2sh;
    if nBlockSigOps + nTxSigOps >= ctx.maxSigOps {
      ok := false;
      return;
    }
    var checks;
    ok, checks := CheckInputs(ctx, view, tx, false);
    if !ok {
      return;
    }
    assert AllPass(ctx.rules, checks);
    UpdateCoinsGood(m, tx, ctx.height);
    var txundo := UpdateCoinsIn(view, tx, ctx.height);
  }

  /** The block so far: what was taken, its fees and signature operations, and the running totals. */
  datatype Picked = Picked(vtx: seq<Tx>, vTxFees: seq<int>, vTxSigOps: seq<nat>, nBlockSize: nat, nBlockSigOps: nat,
                           nFees: int)

  function Sum(s: seq<int>): int {
    if s == [] then 0 else Sum(s[..|s| - 1]) + s[|s| - 1]
  }

  function Sizes(vtx: seq<Tx>): nat {
    if vtx == [] then 0 else Sizes(vtx[..|vtx| - 1]) + vtx[|vtx| - 1].size
  }

  function Hashes(vtx: seq<Tx>): set<Hash> {
    set i | 0 <= i < |vtx| :: vtx[i].hash
  }

  /** Every input is of a transaction the chain already had, or of one that comes earlier in the list. */
  ghost predicate ParentsFirst(m: CoinMap, vtx: seq<Tx>) {
    forall i :: 0 <= i < |vtx| ==> AllDeps(m, vtx[i]) <= Hashes(vtx[..i])
  }

  /** 1000 bytes and 100 signature operations are set aside for the coinbase. */
  const RESERVED_SIZE: int := 1000
  const RESERVED_SIGOPS: int := 100

  /** Pooled transactions, none a coinbase and none twice. */
  ghost predicate FromPool(pool: Pool, vtx: seq<Tx>) {
    && (forall i :: 0 <= i < |vtx| ==> InPool(pool, vtx[i]) && !vtx[i].IsCoinBase())
    && (forall i, j :: 0 <= i < j < |vtx| ==> vtx[i].hash != vtx[j].hash)
  }

  /** What the selection promises about the transactions taken from a pool over coins m. */
  ghost predicate PickedOk(ctx: Ctx, m: CoinMap, pool: Pool, nBlockMaxSize: nat, p: Picked) {
    && FromPool(pool, p.vtx) && ParentsFirst(m, p.vtx)
    && p.nBlockSize == RESERVED_SIZE + Sizes(p.vtx)
    && |p.vTxFees| == |p.vtx| && |p.vTxSigOps| == |p.vtx|
    && p.nFees == Sum(p.vTxFees) && p.nBlockSigOps == RESERVED_SIGOPS + Sum(p.vTxSigOps)
    && (p.vtx != [] ==> p.nBlockSize < nBlockMaxSize)
    && p.nBlockSigOps < ctx.maxSigOps
    && Run(ctx, m, p.vtx).Some?
    && Run(ctx, m, p.vtx).value.fees == p.nFees
    && Run(ctx, m, p.vtx).value.sigOps + RESERVED_SIGOPS == p.nBlockSigOps
  }

  function Extended(p: Picked, tx: Tx, nTxFees: int, nTxSigOps: nat): Picked {
    Picked(p.vtx + [tx], p.vTxFees + [nTxFees], p.vTxSigOps + [nTxSigOps], p.nBlockSize + tx.size,
           p.nBlockSigOps + nTxSigOps, p.nFees + nTxFees)
  }

  lemma ChecksWithLess(ctx: Ctx, m: CoinMap, tx: Tx, sigOps: nat, spare: nat)
    requires TxChecks(ctx, m, tx, sigOps + spare).Some?
    ensures var (fee, ops) := TxChecks(ctx, m, tx, sigOps + spare).value;
            ops >= spare && TxChecks(ctx, m, tx, sigOps) == Some((fee, ops - spare))
  {
  }

  lemma TakeKeeps(ctx: Ctx, m: CoinMap, pool: Pool, nBlockMaxSize: nat, p: Picked, tx: Tx, nTxFees: int,
                  nTxSigOps: nat)
    requires PickedOk(ctx, m, pool, nBlockMaxSize, p) && InPool(pool, tx) && tx.hash !in Hashes(p.vtx)
    requires AllDeps(m, tx) <= Hashes(p.vtx) && !tx.IsCoinBase()
    requires p.nBlockSize + tx.size < nBlockMaxSize && p.nBlockSigOps + nTxSigOps < ctx.maxSigOps
    requires TxChecks(ctx, Run(ctx, m, p.vtx).value.m, tx, p.nBlockSigOps)
             == Some((nTxFees, p.nBlockSigOps + nTxSigOps))
    ensures PickedOk(ctx, m, pool, nBlockMaxSize, Extended(p, tx, nTxFees, nTxSigOps))
    ensures Hashes(p.vtx + [tx]) == Hashes(p.vtx) + {tx.hash}
    ensures Run(ctx, m, p.vtx + [tx]).Some?
    ensures Run(ctx, m, p.vtx + [tx]).value.m == UpdateCoins(Run(ctx, m, p.vtx).value.m, tx, ctx.height).0
  {
    hide Sizes, Sum, AllDeps, Tx.IsCoinBase, UpdateCoins, Run, TxChecks, ParentsFirst, Hashes, FromPool, InPool;
    TakeLists(p, tx, nTxFees, nTxSigOps);
    TakeRuns(ctx, m, p.vtx, tx, nTxFees, p.nBlockSigOps, nTxSigOps);
    TakeOrder(m, pool, p.vtx, tx);
  }

  lemma TakeOrder(m: CoinMap, pool: Pool, vtx: seq<Tx>, tx: Tx)
    requires ParentsFirst(m, vtx) && AllDeps(m, tx) <= Hashes(vtx) && tx.hash !in Hashes(vtx)
    requires FromPool(pool, vtx) && InPool(pool, tx) && !tx.IsCoinBase()
    ensures ParentsFirst(m, vtx + [tx]) && FromPool(pool, vtx + [tx])
  {
    hide AllDeps;
    var all := vtx + [tx];
    forall i | 0 <= i < |all| ensures AllDeps(m, all[i]) <= Hashes(all[..i]) {
      assert all[..i] == vtx[..i];
      assert vtx[..|vtx|] == vtx;
    }
    forall i, j | 0 <= i < j < |all| ensures all[i].hash != all[j].hash {
      assert vtx[i].hash in Hashes(vtx);
    }
  }

  lemma TakeRuns(ctx: Ctx, m: CoinMap, vtx: seq<Tx>, tx: Tx, nTxFees: int, nBlockSigOps: nat, nTxSigOps: nat)
    requires Run(ctx, m, vtx).Some? && nBlockSigOps == Run(ctx, m, vtx).value.sigOps + RESERVED_SIGOPS
    requires TxChecks(ctx, Run(ctx, m, vtx).value.m, tx, nBlockSigOps) == Some((nTxFees, nBlockSigOps + nTxSigOps))
    ensures var before, after := Run(ctx, m, vtx).value, Run(ctx, m, vtx + [tx]);
            && after.Some? && after.value.m == UpdateCoins(before.m, tx, ctx.height).0
            && after.value.fees == before.fees + nTxFees && after.value.sigOps == before.sigOps + nTxSigOps
  {
    var acc := Run(ctx, m, vtx).value;
    ChecksWithLess(ctx, acc.m, tx, acc.sigOps, RESERVED_SIGOPS);
    RunMore(ctx, m, vtx, tx);
    hide TxChecks, UpdateCoins, Run;
  }

  lemma RunMore(ctx: Ctx, m: CoinMap, vtx: seq<Tx>, tx: Tx)
    requires Run(ctx, m, vtx).Some?
    ensures Run(ctx, m, vtx + [tx]) == TxStep(ctx, Run(ctx, m, vtx).value, tx)
  {
    hide TxStep;
    assert (vtx + [tx])[..|vtx|] == vtx;
  }

  /** A selected transaction comes after every selected parent, unless the chain already has coins of that hash. */
  lemma ParentBefore(ctx: Ctx, m: CoinMap, pool: Pool, nBlockMaxSize: nat, p: Picked, i: nat, j: nat, k: nat)
    requires PickedOk(ctx, m, pool, nBlockMaxSize, p) && i < |p.vtx| && j < |p.vtx| && k < |p.vtx[i].vin|
    requires p.vtx[i].vin[k].prevout.hash == p.vtx[j].hash && p.vtx[j].hash !in m
    ensures j < i
  {
    assert p.vtx[j].hash in AllDeps(m, p.vtx[i]);
    assert p.vtx[j].hash in Hashes(p.vtx[..i]);
    var l :| 0 <= l < i && p.vtx[..i][l].hash == p.vtx[j].hash;
    assert l == j;
  }

  lemma TakeLists(p: Picked, tx: Tx, nTxFees: int, nTxSigOps: nat)
    ensures Sizes(p.vtx + [tx]) == Sizes(p.vtx) + tx.size
    ensures Sum(p.vTxFees + [nTxFees]) == Sum(p.vTxFees) + nTxFees
    ensures Sum(p.vTxSigOps + [nTxSigOps]) == Sum(p.vTxSigOps) + nTxSigOps
    ensures Hashes(p.vtx + [tx]) == Hashes(p.vtx) + {tx.hash}
  {
    assert (p.vtx + [tx])[..|p.vtx|] == p.vtx;
    assert (p.vTxFees + [nTxFees])[..|p.vTxFees|] == p.vTxFees;
    assert (p.vTxSigOps + [nTxSigOps])[..|p.vTxSigOps|] == p.vTxSigOps;
    forall h ensures h in Hashes(p.vtx + [tx]) <==> h in Hashes(p.vtx) + {tx.hash} {
      if h in Hashes(p.vtx) {
        var i :| 0 <= i < |p.vtx| && p.vtx[i].hash == h;
        assert (p.vtx + [tx])[i].hash == h;
      }
      if h == tx.hash {
        assert (p.vtx + [tx])[|p.vtx|].hash == h;
      }
    }
  }

  /** The sizes the node was started with. */
  datatype Limits = Limits(nBlockMaxSize: nat, nBlockPrioritySize: nat, nBlockMinSize: nat)

  // ---------- the fate of an entry

  /** Why a dequeued transaction is left out, or that it is taken. */
  datatype Verdict = TooBig | TooManySigOps | FeeTooLow | ChecksFail | IsTaken(nTxFees: int, nTxSigOps: nat)

  /** The block so far and the order the queue is in. */
  datatype Selection = Selection(p: Picked, fSortedByFee: bool)

  function CoinsAfter(ctx: Ctx, m: CoinMap, vtx: seq<Tx>): CoinMap {
    match Run(ctx, m, vtx)
    case None => m
    case Some(acc) => acc.m
  }

  function Judge(ctx: Ctx, m: CoinMap, limits: Limits, s: Selection, e: Entry): Verdict {
    if s.p.nBlockSize + e.tx.size >= limits.nBlockMaxSize then TooBig
    else if s.p.nBlockSigOps + e.tx.sigOps >= ctx.maxSigOps then TooManySigOps
    else if s.fSortedByFee && e.dFeePerKb < MIN_TX_FEE && s.p.nBlockSize + e.tx.size >= limits.nBlockMinSize
    then FeeTooLow
    else
      var coins := CoinsAfter(ctx, m, s.p.vtx);
      var checks := TxChecks(ctx, coins, e.tx, s.p.nBlockSigOps);
      var nTxSigOps := e.tx.sigOps + P2SHSigOps(ctx.rules, coins, e.tx.vin);
      if checks.None? || s.p.nBlockSigOps + nTxSigOps >= ctx.maxSigOps then ChecksFail
      else IsTaken(checks.value.0, nTxSigOps)
  }

  /** The part of the block kept for high priorities is full, or the best priority left is low. */
  predicate TurnsToFees(limits: Limits, s: Selection, e: Entry) {
    s.p.nBlockSize + e.tx.size >= limits.nBlockPrioritySize || e.dPriority < FREE_PRIORITY
  }

  function Offered(ctx: Ctx, m: CoinMap, limits: Limits, s: Selection, e: Entry): Selection {
    match Judge(ctx, m, limits, s, e)
    case TooBig => s
    case TooManySigOps => s
    case FeeTooLow => s
    case ChecksFail => s.(fSortedByFee := s.fSortedByFee || TurnsToFees(limits, s, e))
    case IsTaken(fee, ops) =>
      Selection(Extended(s.p, e.tx, fee, ops), s.fSortedByFee || TurnsToFees(limits, s, e))
  }

  function Start(limits: Limits): Selection {
    Selection(Picked([], [], [], RESERVED_SIZE, RESERVED_SIGOPS, 0), limits.nBlockPrioritySize <= 0)
  }

  /** The block after these entries were offered to it in turn. */
  function OfferAll(ctx: Ctx, m: CoinMap, limits: Limits, order: seq<Entry>): Selection {
    if order == [] then Start(limits)
    else Offered(ctx, m, limits, OfferAll(ctx, m, limits, order[..|order| - 1]), order[|order| - 1])
  }

  // ---------- which orders the queue allows

  /** A candidate whose parents have all been taken and that has not been offered. */
  ghost predicate Open(m: CoinMap, cands: iset<Entry>, taken: set<Hash>, order: seq<Entry>, e: Entry) {
    e in cands && AllDeps(m, e.tx) <= taken && e !in order
  }

  /** What is offered after `order` is open, and no other open candidate beats it. */
  ghost predicate FairNext(m: CoinMap, cands: iset<Entry>, s: Selection, order: seq<Entry>, e: Entry) {
    && Open(m, cands, Hashes(s.p.vtx), order, e)
    && forall e' :: Open(m, cands, Hashes(s.p.vtx), order, e') ==> !Less(e, e', s.fSortedByFee)
  }

  ghost predicate FairSoFar(ctx: Ctx, m: CoinMap, cands: iset<Entry>, limits: Limits, order: seq<Entry>) {
    forall i :: 0 <= i < |order| ==> FairNext(m, cands, OfferAll(ctx, m, limits, order[..i]), order[..i], order[i])
  }

  /** Best first, and until no open candidate is left. */
  ghost predicate Fair(ctx: Ctx, m: CoinMap, cands: iset<Entry>, limits: Limits, order: seq<Entry>) {
    && FairSoFar(ctx, m, cands, limits, order)
    && forall e :: !Open(m, cands, Hashes(OfferAll(ctx, m, limits, order).p.vtx), order, e)
  }

  /** The block before the entry at position j was offered. */
  function Before(ctx: Ctx, m: CoinMap, limits: Limits, order: seq<Entry>, j: nat): Selection
    requires j <= |order|
  {
    OfferAll(ctx, m, limits, order[..j])
  }

  /** x does not come before y: not by fee rate and then priority once the queue is sorted by fee, not by priority and
      then fee rate until then. */
  predicate NoBetter(x: Entry, y: Entry, fSortedByFee: bool) {
    if fSortedByFee then x.dFeePerKb < y.dFeePerKb || (x.dFeePerKb == y.dFeePerKb && x.dPriority <= y.dPriority)
    else x.dPriority < y.dPriority || (x.dPriority == y.dPriority && x.dFeePerKb <= y.dFeePerKb)
  }

  /** Candidates are offered once, after the parents they wait for have been taken; nothing that could have been offered
      instead is better; and all that could be offered are. */
  ghost predicate BestFirst(ctx: Ctx, m: CoinMap, cands: iset<Entry>, limits: Limits, order: seq<Entry>) {
    && (forall j :: 0 <= j < |order| ==>
          order[j] in cands && AllDeps(m, order[j].tx) <= Hashes(Before(ctx, m, limits, order, j).p.vtx))
    && (forall i, j :: 0 <= i < j < |order| ==> order[i] != order[j])
    && (forall j, x :: 0 <= j < |order| && x in cands && x !in order[..j]
                       && AllDeps(m, x.tx) <= Hashes(Before(ctx, m, limits, order, j).p.vtx) ==>
          NoBetter(x, order[j], Before(ctx, m, limits, order, j).fSortedByFee))
    && (forall x :: x in cands && AllDeps(m, x.tx) <= Hashes(OfferAll(ctx, m, limits, order).p.vtx) ==> x in order)
  }

  lemma FairIsBestFirst(ctx: Ctx, m: CoinMap, cands: iset<Entry>, limits: Limits, order: seq<Entry>)
    ensures Fair(ctx, m, cands, limits, order) <==> BestFirst(ctx, m, cands, limits, order)
  {
    hide OfferAll, Hashes, AllDeps;
    if Fair(ctx, m, cands, limits, order) {
      forall j | 0 <= j < |order|
        ensures FairNext(m, cands, Before(ctx, m, limits, order, j), order[..j], order[j])
      {
      }
      forall j, x | 0 <= j < |order| && x in cands && x !in order[..j]
                    && AllDeps(m, x.tx) <= Hashes(Before(ctx, m, limits, order, j).p.vtx)
        ensures NoBetter(x, order[j], Before(ctx, m, limits, order, j).fSortedByFee)
      {
        assert FairNext(m, cands, Before(ctx, m, limits, order, j), order[..j], order[j]);
        assert Open(m, cands, Hashes(Before(ctx, m, limits, order, j).p.vtx), order[..j], x);
      }
      forall x | x in cands && AllDeps(m, x.tx) <= Hashes(OfferAll(ctx, m, limits, order).p.vtx) ensures x in order {
        assert !Open(m, cands, Hashes(OfferAll(ctx, m, limits, order).p.vtx), order, x);
      }
      forall i, j | 0 <= i < j < |order| ensures order[i] != order[j] {
        assert FairNext(m, cands, Before(ctx, m, limits, order, j), order[..j], order[j]);
        assert order[..j][i] == order[i];
      }
    }
    if BestFirst(ctx, m, cands, limits, order) {
      forall j | 0 <= j < |order|
        ensures FairNext(m, cands, OfferAll(ctx, m, limits, order[..j]), order[..j], order[j])
      {
        assert Before(ctx, m, limits, order, j) == OfferAll(ctx, m, limits, order[..j]);
        assert order[j] !in order[..j];
      }
      assert FairSoFar(ctx, m, cands, limits, order);
      forall e ensures !Open(m, cands, Hashes(OfferAll(ctx, m, limits, order).p.vtx), order, e) {
      }
    }
  }

  lemma FairMore(ctx: Ctx, m: CoinMap, cands: iset<Entry>, limits: Limits, order: seq<Entry>, e: Entry)
    requires FairSoFar(ctx, m, cands, limits, order)
    requires FairNext(m, cands, OfferAll(ctx, m, limits, order), order, e)
    ensures FairSoFar(ctx, m, cands, limits, order + [e])
    ensures OfferAll(ctx, m, limits, order + [e]) == Offered(ctx, m, limits, OfferAll(ctx, m, limits, order), e)
  {
    hide FairNext, Offered;
    var all := order + [e];
    assert all[..|order|] == order;
    forall i | 0 <= i < |all| ensures FairNext(m, cands, OfferAll(ctx, m, limits, all[..i]), all[..i], all[i]) {
      if i < |order| {
        assert all[..i] == order[..i];
      }
    }
  }

  /** What was taken stays taken. */
  lemma {:induction false} OfferedStays(ctx: Ctx, m: CoinMap, limits: Limits, order: seq<Entry>, i: nat)
    requires i <= |order|
    ensures OfferAll(ctx, m, limits, order[..i]).p.vtx <= OfferAll(ctx, m, limits, order).p.vtx
    decreases |order|
  {
    if i < |order| {
      OfferedStays(ctx, m, limits, order[..|order| - 1], i);
      assert order[..|order| - 1][..i] == order[..i];
    } else {
      assert order[..i] == order;
    }
  }

  /** A candidate is in the block exactly when it was offered and passed every check. */
  lemma {:induction false} TakenWhenOffered(ctx: Ctx, m: CoinMap, limits: Limits, order: seq<Entry>, tx: Tx)
    ensures tx in OfferAll(ctx, m, limits, order).p.vtx <==>
            exists i :: 0 <= i < |order| && order[i].tx == tx
                        && Judge(ctx, m, limits, OfferAll(ctx, m, limits, order[..i]), order[i]).IsTaken?
  {
    hide Judge;
    if order != [] {
      var front := order[..|order| - 1];
      TakenWhenOffered(ctx, m, limits, front, tx);
      if tx in OfferAll(ctx, m, limits, front).p.vtx {
        var i :| 0 <= i < |front| && front[i].tx == tx
                 && Judge(ctx, m, limits, OfferAll(ctx, m, limits, front[..i]), front[i]).IsTaken?;
        assert order[..i] == front[..i];
      }
      if i :| 0 <= i < |front| && order[i].tx == tx
              && Judge(ctx, m, limits, OfferAll(ctx, m, limits, order[..i]), order[i]).IsTaken?
      {
        assert order[..i] == front[..i];
      }
    }
  }

  /** Every candidate that is not in the block either waits for a parent that is not in it, or was offered once and
      failed the check that the verdict names. */
  lemma LeftOut(ctx: Ctx, m: CoinMap, pool: Pool, height: nat, isFinal: Tx -> bool, limits: Limits,
                order: seq<Entry>, e: Entry)
    requires Fair(ctx, m, Candidates(m, pool, height, isFinal), limits, order)
    requires e in Candidates(m, pool, height, isFinal)
    ensures e.tx !in OfferAll(ctx, m, limits, order).p.vtx <==>
            || !(AllDeps(m, e.tx) <= Hashes(OfferAll(ctx, m, limits, order).p.vtx))
            || exists i :: 0 <= i < |order| && order[i] == e
                           && !Judge(ctx, m, limits, OfferAll(ctx, m, limits, order[..i]), e).IsTaken?
  {
    hide Judge, AllDeps;
    var cands, p := Candidates(m, pool, height, isFinal), OfferAll(ctx, m, limits, order).p;
    TakenWhenOffered(ctx, m, limits, order, e.tx);
    assert !Open(m, cands, Hashes(p.vtx), order, e);
    forall i | 0 <= i < |order| && order[i].tx == e.tx
      ensures order[i] == e && AllDeps(m, e.tx) <= Hashes(p.vtx)
    {
      assert FairNext(m, cands, OfferAll(ctx, m, limits, order[..i]), order[..i], order[i]);
      OfferedStays(ctx, m, limits, order, i);
      MoreHashes(OfferAll(ctx, m, limits, order[..i]).p.vtx, p.vtx);
    }
    forall i, j | 0 <= i < |order| && 0 <= j < |order| && order[i] == e == order[j] ensures i == j {
      OnceOffered(ctx, m, cands, limits, order, i, j);
    }
  }

  lemma MoreHashes(few: seq<Tx>, vtx: seq<Tx>)
    requires few <= vtx
    ensures Hashes(few) <= Hashes(vtx)
  {
    forall h | h in Hashes(few) ensures h in Hashes(vtx) {
      var i :| 0 <= i < |few| && few[i].hash == h;
      assert vtx[i].hash == h;
    }
  }

  lemma OnceOffered(ctx: Ctx, m: CoinMap, cands: iset<Entry>, limits: Limits, order: seq<Entry>, i: nat, j: nat)
    requires FairSoFar(ctx, m, cands, limits, order) && i < |order| && j < |order| && order[i] == order[j]
    ensures i == j
  {
    var k := if i < j then j else i;
    assert FairNext(m, cands, OfferAll(ctx, m, limits, order[..k]), order[..k], order[k]);
    assert forall l :: 0 <= l < k ==> order[..k][l] == order[l];
  }

  // ---------- the loop

  /** The queue holds exactly the open candidates. */
  ghost predicate QueueExact(m: CoinMap, cands: iset<Entry>, taken: set<Hash>, order: seq<Entry>, vec: seq<Entry>) {
    forall e :: e in vec <==> Open(m, cands, taken, order, e)
  }

  /** Offered entries had all their parents taken, and `seen` are their hashes. */
  ghost predicate OrderOk(m: CoinMap, taken: set<Hash>, seen: set<Hash>, order: seq<Entry>) {
    forall e :: e in order ==> AllDeps(m, e.tx) <= taken && e.tx.hash in seen
  }

  lemma ExactAfterPop(m: CoinMap, pool: Pool, cands: iset<Entry>, s: Selection, seen: set<Hash>, order: seq<Entry>,
                      vec: seq<Entry>, best: Entry, rest: seq<Entry>)
    requires QueueExact(m, cands, Hashes(s.p.vtx), order, vec) && OrderOk(m, Hashes(s.p.vtx), seen, order)
    requires best in vec && forall e :: e in rest <==> e in vec && e != best
    requires forall k :: 0 <= k < |vec| ==> !Less(best, vec[k], s.fSortedByFee)
    ensures FairNext(m, cands, s, order, best)
    ensures QueueExact(m, cands, Hashes(s.p.vtx), order + [best], rest)
    ensures OrderOk(m, Hashes(s.p.vtx), seen + {best.tx.hash}, order + [best])
  {
    hide AllDeps, Less, Hashes;
  }

  /** Taking h opens exactly the candidates that waited for it alone. */
  lemma ExactAfterRelease(m: CoinMap, pool: Pool, cands: iset<Entry>, taken: set<Hash>, h: Hash, seen: set<Hash>,
                          order: seq<Entry>, vec: seq<Entry>, vec': seq<Entry>, orphans: seq<Orphan>,
                          dependers: Dependers)
    requires QueueExact(m, cands, taken, order, vec) && OrderOk(m, taken, seen, order)
    requires OrphansOk(m, pool, taken, orphans, dependers) && h !in taken
    requires forall e :: Waits(orphans, e) <==> e in cands && AllDeps(m, e.tx) != {}
    requires forall e :: e in vec' <==> e in vec || exists k: nat :: WaitsFor(orphans, k, h) && EntryOf(orphans[k]) == e
    ensures QueueExact(m, cands, taken + {h}, order, vec') && OrderOk(m, taken + {h}, seen, order)
  {
    hide AllDeps;
    forall e ensures e in vec' <==> Open(m, cands, taken + {h}, order, e) {
      var deps := AllDeps(m, e.tx);
      if Open(m, cands, taken + {h}, order, e) && !(deps <= taken) {
        var k :| 0 <= k < |orphans| && EntryOf(orphans[k]) == e;
        assert deps - taken == {h};
        assert WaitsFor(orphans, k, h);
      }
      if k: nat :| WaitsFor(orphans, k, h) && EntryOf(orphans[k]) == e {
        assert Waits(orphans, e);
        assert h in deps - taken && deps - taken == {h};
        assert !(deps <= taken);
      }
    }
  }

  lemma WaitersStay(orphans: seq<Orphan>, orphans': seq<Orphan>, h: Hash)
    requires |orphans'| == |orphans|
    requires forall k :: 0 <= k < |orphans| ==>
               orphans'[k] == orphans[k].(setDependsOn := orphans[k].setDependsOn - {h})
    ensures forall e :: Waits(orphans', e) <==> Waits(orphans, e)
  {
    forall e ensures Waits(orphans', e) <==> Waits(orphans, e) {
      if Waits(orphans, e) {
        var k :| 0 <= k < |orphans| && EntryOf(orphans[k]) == e;
        assert EntryOf(orphans'[k]) == e;
      }
      if Waits(orphans', e) {
        var k :| 0 <= k < |orphans| && EntryOf(orphans'[k]) == e;
        assert EntryOf(orphans[k]) == e;
      }
    }
  }

  /** Takes transactions off the queue, best first, until it is empty. `order` records what was dequeued: it is an order
      the queue allows, and the block is what offering it gives. */
  method Select(ctx: Ctx, view: ViewCache, ghost pool: Pool, ghost cands: iset<Entry>, limits: Limits,
                ready: seq<Entry>, waiting: seq<Orphan>, dependers: Dependers)
    returns (p: Picked, ghost order: seq<Entry>)
    requires view.Valid() && GoodMap(view.Contents()) && PoolOk(pool)
    requires view.Best() != null && view.Best().nHeight + 1 == ctx.height && 1 <= ctx.height < INT_LIMIT
    requires ctx.strict && ctx.scripts && RESERVED_SIGOPS < ctx.maxSigOps
    requires QueueOk(view.Contents(), pool, {}, {}, ready) && Separate({}, ready, waiting)
    requires OrphansOk(view.Contents(), pool, {}, waiting, dependers)
    requires Placed(view.Contents(), cands, {}, ready, waiting)
    modifies view.views
    ensures view.Best() == old(view.Best()) && view.BelowKept()
    ensures PickedOk(ctx, old(view.Contents()), pool, limits.nBlockMaxSize, p)
    ensures view.Contents() == Run(ctx, old(view.Contents()), p.vtx).value.m
    ensures Fair(ctx, old(view.Contents()), cands, limits, order)
    ensures p == OfferAll(ctx, old(view.Contents()), limits, order).p
  {
    hide ViewCache.Contents, ViewCache.Best, Run, UpdateCoins, AllDeps, OrphansOk, Separate, PickedOk, QueueOk, GoodMap,
         QueueExact, OrderOk, FairSoFar, FairNext, Open, Waits, Offered;
    ghost var m := view.Contents();
    var vec, orphans := ready, waiting;
    var s := Start(limits);
    order := [];
    NothingTaken(ctx, m, pool, limits.nBlockMaxSize);
    ghost var seen: set<Hash> := {};
    NothingOffered(ctx, m, cands, limits, ready, waiting);
    while vec != []
      invariant view.Best() == old(view.Best()) && view.BelowKept() && GoodMap(view.Contents())
      invariant PickedOk(ctx, m, pool, limits.nBlockMaxSize, s.p) && Run(ctx, m, s.p.vtx).Some?
      invariant view.Contents() == Run(ctx, m, s.p.vtx).value.m
      invariant QueueOk(m, pool, Hashes(s.p.vtx), seen, vec) && Separate(seen, vec, orphans)
      invariant OrphansOk(m, pool, Hashes(s.p.vtx), orphans, dependers)
      invariant Hashes(s.p.vtx) <= seen <= pool.Keys
      invariant QueueExact(m, cands, Hashes(s.p.vtx), order, vec) && OrderOk(m, Hashes(s.p.vtx), seen, order)
      invariant forall e :: Waits(orphans, e) <==> e in cands && AllDeps(m, e.tx) != {}
      invariant FairSoFar(ctx, m, cands, limits, order) && s == OfferAll(ctx, m, limits, order)
      decreases pool.Keys - seen
    {
      hide Hashes, OfferAll, Less;
      var best, rest := Dequeue(m, pool, Hashes(s.p.vtx), seen, vec, orphans, s.fSortedByFee);
      ExactAfterPop(m, pool, cands, s, seen, order, vec, best, rest);
      FairMore(ctx, m, cands, limits, order, best);
      ghost var taken := Hashes(s.p.vtx);
      var tx := best.tx;
      vec, seen, order := rest, seen + {tx.hash}, order + [best];
      var ok, s' := Offer(ctx, view, m, pool, limits, s, best);
      s := s';
      if ok {
        MoreTaken(m, pool, taken, tx.hash, seen, vec);
        ghost var before := orphans;
        rest := vec;
        vec, orphans := Release(m, pool, taken, seen, vec, orphans, dependers, tx.hash);
        ExactAfterRelease(m, pool, cands, taken, tx.hash, seen, order, rest, vec, before, dependers);
        WaitersStay(before, orphans, tx.hash);
      }
    }
    p := s.p;
    NothingOpen(ctx, m, cands, limits, order);
  }

  lemma NothingOffered(ctx: Ctx, m: CoinMap, cands: iset<Entry>, limits: Limits, vec: seq<Entry>, orphans: seq<Orphan>)
    requires Placed(m, cands, {}, vec, orphans)
    ensures QueueExact(m, cands, {}, [], vec) && OrderOk(m, {}, {}, []) && FairSoFar(ctx, m, cands, limits, [])
    ensures forall e :: Waits(orphans, e) <==> e in cands && AllDeps(m, e.tx) != {}
  {
    hide AllDeps;
  }

  lemma NothingOpen(ctx: Ctx, m: CoinMap, cands: iset<Entry>, limits: Limits, order: seq<Entry>)
    requires FairSoFar(ctx, m, cands, limits, order)
    requires QueueExact(m, cands, Hashes(OfferAll(ctx, m, limits, order).p.vtx), order, [])
    ensures Fair(ctx, m, cands, limits, order)
  {
    hide FairSoFar, Open;
  }

  /** The best entry, with what its being in the queue says about it. */
  method Dequeue(ghost m: CoinMap, ghost pool: Pool, ghost taken: set<Hash>, ghost seen: set<Hash>, vec: seq<Entry>,
                 ghost orphans: seq<Orphan>, byFee: bool) returns (best: Entry, rest: seq<Entry>)
    requires vec != [] && QueueOk(m, pool, taken, seen, vec) && Separate(seen, vec, orphans)
    ensures QueueOk(m, pool, taken, seen + {best.tx.hash}, rest) && Separate(seen + {best.tx.hash}, rest, orphans)
    ensures InPool(pool, best.tx) && AllDeps(m, best.tx) <= taken && best.tx.hash !in seen && !best.tx.IsCoinBase()
    ensures best in vec && forall k :: 0 <= k < |vec| ==> !Less(best, vec[k], byFee)
    ensures forall e :: e in rest <==> e in vec && e != best
  {
    hide QueueOk, Separate, AllDeps, Less;
    best, rest := PopBest(vec, byFee);
    ghost var i :| 0 <= i < |vec| && best == vec[i] && rest == vec[..i] + vec[i + 1..];
    Front(m, pool, taken, seen, vec, i);
    PopKeeps(m, pool, taken, seen, vec, orphans, i);
  }

  /** One dequeued entry: the size and signature limits, the fee rule, the switch to ordering by fee, and the checks on
      the coins. */
  method Offer(ctx: Ctx, view: ViewCache, ghost m: CoinMap, ghost pool: Pool, limits: Limits, s: Selection, e: Entry)
    returns (ok: bool, s': Selection)
    requires view.Valid() && GoodMap(view.Contents()) && PoolOk(pool)
    requires view.Best() != null && view.Best().nHeight + 1 == ctx.height && 1 <= ctx.height < INT_LIMIT
    requires ctx.strict && ctx.scripts
    requires PickedOk(ctx, m, pool, limits.nBlockMaxSize, s.p) && view.Contents() == Run(ctx, m, s.p.vtx).value.m
    requires InPool(pool, e.tx) && e.tx.hash !in Hashes(s.p.vtx) && AllDeps(m, e.tx) <= Hashes(s.p.vtx)
    requires !e.tx.IsCoinBase()
    modifies view.views
    ensures view.Best() == old(view.Best()) && view.BelowKept() && GoodMap(view.Contents())
    ensures PickedOk(ctx, m, pool, limits.nBlockMaxSize, s'.p) && Run(ctx, m, s'.p.vtx).Some?
    ensures view.Contents() == Run(ctx, m, s'.p.vtx).value.m
    ensures Hashes(s'.p.vtx) == if ok then Hashes(s.p.vtx) + {e.tx.hash} else Hashes(s.p.vtx)
    ensures s' == Offered(ctx, m, limits, s, e) && ok == Judge(ctx, m, limits, s, e).IsTaken?
  {
    hide ViewCache.Contents, ViewCache.Best, ViewCache.Valid, UpdateCoins, AllDeps, GoodMap, Hashes, Run, TxChecks,
         P2SHSigOps, PickedOk, PoolOk, WellFormed, InPool, Tx.IsCoinBase;
    PickedRuns(ctx, m, pool, limits.nBlockMaxSize, s.p);
    ok, s' := false, s;
    var nTxSize := e.tx.size;
    if s.p.nBlockSize + nTxSize >= limits.nBlockMaxSize {
      return;
    }
    if s.p.nBlockSigOps + e.tx.sigOps >= ctx.maxSigOps {
      return;
    }
    if s.fSortedByFee && e.dFeePerKb < MIN_TX_FEE && s.p.nBlockSize + nTxSize >= limits.nBlockMinSize {
      return;
    }
    var fSortedByFee := s.fSortedByFee;
    if !fSortedByFee && (s.p.nBlockSize + nTxSize >= limits.nBlockPrioritySize || e.dPriority < FREE_PRIORITY) {
      fSortedByFee := true;
    }
    var p;
    ok, p := Take(ctx, view, m, pool, limits.nBlockMaxSize, s.p, e.tx);
    s' := Selection(p, fSortedByFee);
  }

  lemma PickedRuns(ctx: Ctx, m: CoinMap, pool: Pool, nBlockMaxSize: nat, p: Picked)
    requires PickedOk(ctx, m, pool, nBlockMaxSize, p)
    ensures Run(ctx, m, p.vtx).Some? && CoinsAfter(ctx, m, p.vtx) == Run(ctx, m, p.vtx).value.m
  {
  }

  lemma OpsOf(ctx: Ctx, m: CoinMap, tx: Tx, sigOps: nat)
    requires ctx.strict && !tx.IsCoinBase()
    ensures TxChecks(ctx, m, tx, sigOps).Some? ==>
              TxChecks(ctx, m, tx, sigOps).value.1 == sigOps + tx.sigOps + P2SHSigOps(ctx.rules, m, tx.vin)
  {
    hide P2SHSigOps, ValuesPass, ScriptsPass, HaveInputs;
  }

  /** Adds the transaction to the block if it passes. */
  method Take(ctx: Ctx, view: ViewCache, ghost m: CoinMap, ghost pool: Pool, ghost nBlockMaxSize: nat, p: Picked,
              tx: Tx) returns (ok: bool, p': Picked)
    requires view.Valid() && GoodMap(view.Contents()) && PoolOk(pool)
    requires view.Best() != null && view.Best().nHeight + 1 == ctx.height && 1 <= ctx.height < INT_LIMIT
    requires ctx.strict && ctx.scripts
    requires PickedOk(ctx, m, pool, nBlockMaxSize, p) && view.Contents() == Run(ctx, m, p.vtx).value.m
    requires InPool(pool, tx) && tx.hash !in Hashes(p.vtx) && AllDeps(m, tx) <= Hashes(p.vtx) && !tx.IsCoinBase()
    requires p.nBlockSize + tx.size < nBlockMaxSize && p.nBlockSigOps + tx.sigOps < ctx.maxSigOps
    modifies view.views
    ensures view.Best() == old(view.Best()) && view.BelowKept() && GoodMap(view.Contents())
    ensures PickedOk(ctx, m, pool, nBlockMaxSize, p') && Run(ctx, m, p'.vtx).Some?
    ensures view.Contents() == Run(ctx, m, p'.vtx).value.m
    ensures Hashes(p'.vtx) == if ok then Hashes(p.vtx) + {tx.hash} else Hashes(p.vtx)
    ensures var checks := TxChecks(ctx, old(view.Contents()), tx, p.nBlockSigOps);
            var nTxSigOps := tx.sigOps + P2SHSigOps(ctx.rules, old(view.Contents()), tx.vin);
            && ok == (checks.Some? && p.nBlockSigOps + nTxSigOps < ctx.maxSigOps)
            && p' == if ok then Extended(p, tx, checks.value.0, nTxSigOps) else p
  {
    hide ViewCache.Contents, ViewCache.Best, UpdateCoins, AllDeps, GoodMap, Hashes, Run, TxChecks, P2SHSigOps;
    OpsOf(ctx, view.Contents(), tx, p.nBlockSigOps);
    p' := p;
    var nTxFees, nTxSigOps;
    ok, nTxFees, nTxSigOps := AcceptTx(ctx, view, tx, p.nBlockSigOps);
    if ok {
      hide PickedOk, PoolOk;
      TakeKeeps(ctx, m, pool, nBlockMaxSize, p, tx, nTxFees, nTxSigOps);
      p' := Extended(p, tx, nTxFees, nTxSigOps);
    }
  }

  lemma NothingTaken(ctx: Ctx, m: CoinMap, pool: Pool, nBlockMaxSize: nat)
    requires RESERVED_SIGOPS < ctx.maxSigOps
    ensures PickedOk(ctx, m, pool, nBlockMaxSize, Picked([], [], [], RESERVED_SIZE, RESERVED_SIGOPS, 0))
    ensures Run(ctx, m, []).Some? && Run(ctx, m, []).value.m == m && Hashes([]) == {}
  {
  }

  lemma Front(m: CoinMap, pool: Pool, taken: set<Hash>, seen: set<Hash>, vec: seq<Entry>, i: nat)
    requires QueueOk(m, pool, taken, seen, vec) && i < |vec|
    ensures InPool(pool, vec[i].tx) && AllDeps(m, vec[i].tx) <= taken && vec[i].tx.hash !in seen
    ensures !vec[i].tx.IsCoinBase()
  {
  }

  lemma MoreTaken(m: CoinMap, pool: Pool, taken: set<Hash>, h: Hash, seen: set<Hash>, vec: seq<Entry>)
    requires QueueOk(m, pool, taken, seen, vec)
    ensures QueueOk(m, pool, taken + {h}, seen, vec)
  {
  }

  // ---------- the template

  datatype Template = Template(vtx: seq<Tx>, vTxFees: seq<int>, vTxSigOps: seq<nat>, coinbaseValue: int,
                               nBlockSize: nat)

  function MaxSize(height: nat, arg: nat): nat {
    var least := if MaxBlockSize(height) - 1000 < arg then MaxBlockSize(height) - 1000 else arg;
    if least < 1000 then 1000 else least
  }

  function AtMost(bound: nat, arg: nat): nat {
    if bound < arg then bound else arg
  }

  function LimitsFor(height: nat, maxArg: nat, priorityArg: nat, minArg: nat): Limits {
    var nBlockMaxSize := MaxSize(height, maxArg);
    Limits(nBlockMaxSize, AtMost(nBlockMaxSize, priorityArg), AtMost(nBlockMaxSize, minArg))
  }

  /** The transactions after the coinbase are those a fair order of the pool's candidates leaves in the block, with all
      that the selection promises; the fee list sums to zero and the coinbase pays the subsidy plus all fees. `maxArg`,
      `priorityArg` and `minArg` are the node's size arguments. */
  method CreateNewBlock(rules: Rules, view: ViewCache, pool: Pool, isFinal: Tx -> bool, maxArg: nat, priorityArg: nat,
                        minArg: nat, coinbaseSigOps: nat)
    returns (t: Template, ghost order: seq<Entry>)
    requires view.Valid() && GoodMap(view.Contents()) && PoolOk(pool)
    requires view.Best() != null && view.Best().nHeight + 1 < INT_LIMIT
    requires NoneHalfMissing(view.Contents(), pool) && Priceable(view.Contents(), pool, isFinal)
    modifies view.views
    ensures var height := old(view.Best()).nHeight + 1;
            var ctx := TemplateCtx(rules, height);
            var m := old(view.Contents());
            var limits := LimitsFor(height, maxArg, priorityArg, minArg);
            var p := OfferAll(ctx, m, limits, order).p;
            && Fair(ctx, m, Candidates(m, pool, height, isFinal), limits, order)
            && BestFirst(ctx, m, Candidates(m, pool, height, isFinal), limits, order)
            && PickedOk(ctx, m, pool, limits.nBlockMaxSize, p)
            && t.vtx == p.vtx && t.nBlockSize == 1000 + Sizes(t.vtx) == p.nBlockSize <= limits.nBlockMaxSize
            && 100 + Sum(p.vTxSigOps) < MaxBlockSigOps(height)
            && t.vTxFees == [-p.nFees] + p.vTxFees && t.vTxSigOps == [coinbaseSigOps] + p.vTxSigOps
            && Sum(t.vTxFees) == 0
            && t.coinbaseValue == GetBlockValue(height - 1, Sum(p.vTxFees))
    ensures view.Best() == old(view.Best()) && view.BelowKept()
  {
    hide ViewCache.Contents, ViewCache.Best, Run, NoneHalfMissing, OrphansOk, QueueOk, Separate, GetBlockValue, Placed,
         Fair, BestFirst, Candidates, OfferAll, Priceable;
    var pindexPrev := view.GetBestBlock();
    var height := pindexPrev.nHeight + 1;
    var limits := LimitsFor(height, maxArg, priorityArg, minArg);
    ghost var cands := Candidates(view.Contents(), pool, height, isFinal);
    var vec, orphans, dependers := Collect(view, pool, height, isFinal);
    var p;
    p, order := Select(TemplateCtx(rules, height), view, pool, cands, limits, vec, orphans, dependers);
    FairIsBestFirst(TemplateCtx(rules, height), old(view.Contents()), cands, limits, order);
    var blockValue := GetBlockValue(pindexPrev.nHeight, p.nFees);
    t := Template(p.vtx, [-p.nFees] + p.vTxFees, [coinbaseSigOps] + p.vTxSigOps, blockValue, p.nBlockSize);
    SumFront(-p.nFees, p.vTxFees);
  }

  lemma {:induction false} SumFront(a: int, s: seq<int>)
    ensures Sum([a] + s) == a + Sum(s)
  {
    if s != [] {
      SumFront(a, s[..|s| - 1]);
      assert ([a] + s)[..|s|] == [a] + s[..|s| - 1];
    }
  }
}
