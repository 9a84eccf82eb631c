/** CTxMemPool: the pool of unconfirmed transactions and its index of spent outputs. */
module Mempool {
  import opened Transactions

  /** Which input of which pooled transaction spends an output. The source keeps a pointer to the pooled copy. */
  datatype InPoint = InPoint(hash: Hash, n: nat)

  /** A transaction's hash commits to its inputs, so spending cannot loop: some rank falls from spender to spent. */
  ghost predicate Acyclic(pool: Pool, rank: Hash -> nat) {
    forall id, i :: id in pool && 0 <= i < |pool[id].vin| ==> rank(pool[id].vin[i].prevout.hash) < rank(id)
  }

  ghost predicate Spends(tx: Tx, o: OutPoint) {
    exists i :: 0 <= i < |tx.vin| && tx.vin[i].prevout == o
  }

  ghost predicate UniqueSpenders(pool: Pool) {
    forall x, y, o :: x in pool && y in pool && Spends(pool[x], o) && Spends(pool[y], o) ==> x == y
  }

  /** The outputs of a transaction; the first n of them. */
  function Outputs(tx: Tx, n: nat): set<OutPoint> {
    set i: nat | i < n :: OutPoint(tx.hash, i)
  }

  /** The first n outputs a transaction spends. */
  function Inputs(tx: Tx, n: nat): set<OutPoint>
    requires n <= |tx.vin|
  {
    set i: nat | i < n :: tx.vin[i].prevout
  }

  /** d is in the pool and, directly or through pooled transactions, spends an output of S. */
  ghost predicate Doomed(pool: Pool, rank: Hash -> nat, S: set<OutPoint>, d: Hash)
    requires Acyclic(pool, rank)
    decreases rank(d)
  {
    d in pool && exists i :: 0 <= i < |pool[d].vin| &&
                   (pool[d].vin[i].prevout in S || ViaParent(pool, rank, S, d, i))
  }

  ghost predicate ViaParent(pool: Pool, rank: Hash -> nat, S: set<OutPoint>, d: Hash, i: nat)
    requires Acyclic(pool, rank) && d in pool && i < |pool[d].vin|
    decreases rank(d), 0
  {
    var p := pool[d].vin[i].prevout;
    p.hash in pool && p.n < |pool[p.hash].vout| && Doomed(pool, rank, S, p.hash)
  }

  /** The pool without what depends on S. */
  ghost function Minus(pool: Pool, rank: Hash -> nat, S: set<OutPoint>): Pool
    requires Acyclic(pool, rank)
  {
    map d | d in pool && !Doomed(pool, rank, S, d) :: pool[d]
  }

  ghost predicate KeysAreHashes(pool: Pool) {
    forall id :: id in pool ==> pool[id].hash == id
  }

  ghost predicate Submap(a: Pool, b: Pool) {
    forall id :: id in a ==> id in b && a[id] == b[id]
  }

  lemma MinusFacts(pool: Pool, rank: Hash -> nat, S: set<OutPoint>)
    requires Acyclic(pool, rank)
    ensures Submap(Minus(pool, rank, S), pool) && Acyclic(Minus(pool, rank, S), rank)
    ensures KeysAreHashes(pool) ==> KeysAreHashes(Minus(pool, rank, S))
  {
  }

  lemma {:induction false} MinusNothing(pool: Pool, rank: Hash -> nat, d: Hash)
    requires Acyclic(pool, rank)
    ensures !Doomed(pool, rank, {}, d)
    decreases rank(d)
  {
    if Doomed(pool, rank, {}, d) {
      var i :| 0 <= i < |pool[d].vin| && (pool[d].vin[i].prevout in {} || ViaParent(pool, rank, {}, d, i));
      MinusNothing(pool, rank, pool[d].vin[i].prevout.hash);
    }
  }

  /** More to start from dooms more. */
  lemma {:induction false} DoomedMore(small: Pool, pool: Pool, rank: Hash -> nat, S: set<OutPoint>,
                                      T: set<OutPoint>, d: Hash)
    requires Acyclic(pool, rank) && Acyclic(small, rank) && Submap(small, pool) && S <= T
    requires Doomed(small, rank, S, d)
    ensures Doomed(pool, rank, T, d)
    decreases rank(d)
  {
    var i :| 0 <= i < |small[d].vin| && (small[d].vin[i].prevout in S || ViaParent(small, rank, S, d, i));
    if small[d].vin[i].prevout !in S {
      DoomedMore(small, pool, rank, S, T, small[d].vin[i].prevout.hash);
      assert ViaParent(pool, rank, T, d, i);
    }
  }

  /** Spenders of a doomed transaction are doomed. */
  lemma DoomedClosed(pool: Pool, rank: Hash -> nat, S: set<OutPoint>, d: Hash, i: nat)
    requires Acyclic(pool, rank) && d in pool && i < |pool[d].vin|
    requires var p := pool[d].vin[i].prevout;
             p.hash in pool && p.n < |pool[p.hash].vout| && Doomed(pool, rank, S, p.hash)
    ensures Doomed(pool, rank, S, d)
  {
    assert ViaParent(pool, rank, S, d, i);
  }

  /** The only spender of o takes its own descendants with it: direction one. */
  lemma {:induction false} DoomedByOne(pool: Pool, rank: Hash -> nat, S: set<OutPoint>, o: OutPoint, c: Hash, d: Hash)
    requires Acyclic(pool, rank) && KeysAreHashes(pool)
    requires forall x :: x in pool && Spends(pool[x], o) ==> x == c
    requires c in pool && Doomed(pool, rank, S + {o}, d) && !Doomed(pool, rank, S, d) && d != c
    ensures (MinusFacts(pool, rank, S);
             Doomed(Minus(pool, rank, S), rank, Outputs(pool[c], |pool[c].vout|), d))
    decreases rank(d)
  {
    MinusFacts(pool, rank, S);
    var rest := Minus(pool, rank, S);
    var outs := Outputs(pool[c], |pool[c].vout|);
    var i :| 0 <= i < |pool[d].vin|
             && (pool[d].vin[i].prevout in S + {o} || ViaParent(pool, rank, S + {o}, d, i));
    var p := pool[d].vin[i].prevout;
    assert p !in S;
    assert Spends(pool[d], p);
    assert ViaParent(pool, rank, S + {o}, d, i);
    if Doomed(pool, rank, S, p.hash) {
      DoomedClosed(pool, rank, S, d, i);
    }
    if p.hash != c {
      DoomedByOne(pool, rank, S, o, c, p.hash);
      assert ViaParent(rest, rank, outs, d, i);
    }
    assert d in rest;
  }

  /** Direction two. */
  lemma {:induction false} DoomedThroughOne(pool: Pool, rank: Hash -> nat, S: set<OutPoint>, o: OutPoint, c: Hash,
                                            d: Hash)
    requires Acyclic(pool, rank) && KeysAreHashes(pool) && c in pool && Spends(pool[c], o)
    requires (MinusFacts(pool, rank, S);
              Doomed(Minus(pool, rank, S), rank, Outputs(pool[c], |pool[c].vout|), d))
    ensures Doomed(pool, rank, S + {o}, d)
    decreases rank(d)
  {
    MinusFacts(pool, rank, S);
    var rest := Minus(pool, rank, S);
    var outs := Outputs(pool[c], |pool[c].vout|);
    var i :| 0 <= i < |rest[d].vin| && (rest[d].vin[i].prevout in outs || ViaParent(rest, rank, outs, d, i));
    var p := rest[d].vin[i].prevout;
    if p in outs {
      assert Doomed(pool, rank, S + {o}, c);
    } else {
      DoomedThroughOne(pool, rank, S, o, c, p.hash);
    }
    DoomedClosed(pool, rank, S + {o}, d, i);
  }

  /** One more output to start from, and the one transaction that spends it. */
  lemma MinusOneMore(pool: Pool, rank: Hash -> nat, S: set<OutPoint>, o: OutPoint, c: Hash)
    requires Acyclic(pool, rank) && KeysAreHashes(pool)
    requires forall x :: x in pool && Spends(pool[x], o) ==> x == c
    requires c in pool && Spends(pool[c], o) && !Doomed(pool, rank, S, c)
    ensures (MinusFacts(pool, rank, S);
             Minus(pool, rank, S + {o})
             == Minus(Minus(pool, rank, S), rank, Outputs(pool[c], |pool[c].vout|)) - {c})
  {
    MinusFacts(pool, rank, S);
    var rest := Minus(pool, rank, S);
    var outs := Outputs(pool[c], |pool[c].vout|);
    forall d | d in pool
      ensures Doomed(pool, rank, S + {o}, d) <==> Doomed(pool, rank, S, d) || d == c || Doomed(rest, rank, outs, d)
    {
      if Doomed(pool, rank, S, d) {
        DoomedMore(pool, pool, rank, S, S + {o}, d);
      } else if d == c {
        var i :| 0 <= i < |pool[c].vin| && pool[c].vin[i].prevout == o;
        assert pool[c].vin[i].prevout in S + {o};
      } else if Doomed(pool, rank, S + {o}, d) {
        DoomedByOne(pool, rank, S, o, c, d);
      } else if Doomed(rest, rank, outs, d) {
        DoomedThroughOne(pool, rank, S, o, c, d);
      }
    }
  }

  /** One more output, spent by nobody that is left. */
  lemma MinusUnspent(pool: Pool, rank: Hash -> nat, S: set<OutPoint>, o: OutPoint)
    requires Acyclic(pool, rank)
    requires forall x :: x in pool && Spends(pool[x], o) ==> Doomed(pool, rank, S, x)
    ensures Minus(pool, rank, S + {o}) == Minus(pool, rank, S)
  {
    forall d | d in pool ensures Doomed(pool, rank, S + {o}, d) <==> Doomed(pool, rank, S, d) {
      if Doomed(pool, rank, S, d) {
        DoomedMore(pool, pool, rank, S, S + {o}, d);
      } else if Doomed(pool, rank, S + {o}, d) {
        UnspentDooms(pool, rank, S, o, d);
      }
    }
  }

  lemma {:induction false} UnspentDooms(pool: Pool, rank: Hash -> nat, S: set<OutPoint>, o: OutPoint, d: Hash)
    requires Acyclic(pool, rank)
    requires forall x :: x in pool && Spends(pool[x], o) ==> Doomed(pool, rank, S, x)
    requires Doomed(pool, rank, S + {o}, d)
    ensures Doomed(pool, rank, S, d)
    decreases rank(d)
  {
    var i :| 0 <= i < |pool[d].vin|
             && (pool[d].vin[i].prevout in S + {o} || ViaParent(pool, rank, S + {o}, d, i));
    var p := pool[d].vin[i].prevout;
    if p == o {
      assert Spends(pool[d], o);
    } else if p !in S {
      UnspentDooms(pool, rank, S, o, p.hash);
      DoomedClosed(pool, rank, S, d, i);
    }
  }

  /** mapNextTx is exactly the inverse of the pooled inputs. */
  ghost predicate IsInverse(pool: Pool, next: map<OutPoint, InPoint>) {
    && (forall id, i :: id in pool && 0 <= i < |pool[id].vin| ==>
          pool[id].vin[i].prevout in next && next[pool[id].vin[i].prevout] == InPoint(id, i))
    && (forall o :: o in next ==>
          var p := next[o];
          p.hash in pool && p.n < |pool[p.hash].vin| && pool[p.hash].vin[p.n].prevout == o)
  }

  /** The first n inputs of tx have been added to the index. */
  ghost predicate Indexed(next: map<OutPoint, InPoint>, tx: Tx, n: nat, next': map<OutPoint, InPoint>)
    requires n <= |tx.vin|
  {
    && (forall o :: o in next ==> o in next' && next'[o] == next[o])
    && (forall k :: 0 <= k < n ==>
          tx.vin[k].prevout in next' && next'[tx.vin[k].prevout] == InPoint(tx.hash, k))
    && (forall o :: o in next' && o !in next ==>
          var p := next'[o]; p.hash == tx.hash && p.n < n && tx.vin[p.n].prevout == o)
  }

  lemma NotIndexed(next: map<OutPoint, InPoint>, tx: Tx)
    ensures Indexed(next, tx, 0, next)
  {
  }

  lemma IndexMore(next: map<OutPoint, InPoint>, tx: Tx, n: nat, next': map<OutPoint, InPoint>)
    requires n < |tx.vin| && Indexed(next, tx, n, next') && DistinctInputs(tx.vin) && tx.vin[n].prevout !in next
    ensures Indexed(next, tx, n + 1, next'[tx.vin[n].prevout := InPoint(tx.hash, n)])
  {
  }

  lemma IndexDone(pool: Pool, next: map<OutPoint, InPoint>, tx: Tx, next': map<OutPoint, InPoint>)
    requires IsInverse(pool, next) && tx.hash !in pool && Indexed(next, tx, |tx.vin|, next')
    ensures IsInverse(pool[tx.hash := tx], next')
  {
  }

  lemma AcyclicMore(pool: Pool, tx: Tx, rank: Hash -> nat)
    requires Acyclic(pool, rank) && KeysAreHashes(pool)
    requires forall i :: 0 <= i < |tx.vin| ==> rank(tx.vin[i].prevout.hash) < rank(tx.hash)
    ensures Acyclic(pool[tx.hash := tx], rank) && KeysAreHashes(pool[tx.hash := tx])
  {
  }

  class TxMemPool {
    var mapTx: Pool
    var mapNextTx: map<OutPoint, InPoint>
    ghost const rank: Hash -> nat

    ghost predicate Inv()
      reads this
    {
      IsInverse(mapTx, mapNextTx) && KeysAreHashes(mapTx) && Acyclic(mapTx, rank)
    }

    constructor (ghost rank: Hash -> nat)
      ensures Inv() && mapTx == map[] && this.rank == rank
    {
      mapTx, mapNextTx := map[], map[];
      this.rank := rank;
    }

    /** An output has at most one pooled spender, and mapNextTx finds it. */
    lemma FindSpender(o: OutPoint)
      requires Inv()
      ensures o in mapNextTx <==> exists x :: x in mapTx && Spends(mapTx[x], o)
      ensures forall x :: x in mapTx && Spends(mapTx[x], o) ==> o in mapNextTx && x == mapNextTx[o].hash
      ensures o in mapNextTx ==>
                var c := mapNextTx[o].hash; c in mapTx && Spends(mapTx[c], o) && mapTx[c].hash == c
    {
      forall x | x in mapTx && Spends(mapTx[x], o) ensures o in mapNextTx && x == mapNextTx[o].hash {
        var i :| 0 <= i < |mapTx[x].vin| && mapTx[x].vin[i].prevout == o;
      }
      if o in mapNextTx {
        assert mapTx[mapNextTx[o].hash].vin[mapNextTx[o].n].prevout == o;
      }
    }

    method AddUnchecked(tx: Tx)
      requires Inv() && DistinctInputs(tx.vin) && tx.hash !in mapTx
      requires forall i :: 0 <= i < |tx.vin| ==> tx.vin[i].prevout !in mapNextTx
      requires forall i :: 0 <= i < |tx.vin| ==> rank(tx.vin[i].prevout.hash) < rank(tx.hash)
      modifies this
      ensures Inv() && mapTx == old(mapTx)[tx.hash := tx]
    {
      AcyclicMore(mapTx, tx, rank);
      hide Acyclic, KeysAreHashes, IsInverse, Indexed;
      NotIndexed(mapNextTx, tx);
      mapTx := mapTx[tx.hash := tx];
      for i := 0 to |tx.vin|
        invariant mapTx == old(mapTx)[tx.hash := tx] && Indexed(old(mapNextTx), tx, i, mapNextTx)
      {
        IndexMore(old(mapNextTx), tx, i, mapNextTx);
        mapNextTx := mapNextTx[tx.vin[i].prevout := InPoint(tx.hash, i)];
      }
      IndexDone(old(mapTx), old(mapNextTx), tx, mapNextTx);
    }

    /** The part of accept that looks at the pool: known transactions and conflicting spends are refused. */
    method Accept(tx: Tx) returns (ok: bool)
      requires Inv() && DistinctInputs(tx.vin)
      requires forall i :: 0 <= i < |tx.vin| ==> rank(tx.vin[i].prevout.hash) < rank(tx.hash)
      modifies this
      ensures Inv()
      ensures ok <==> tx.hash !in old(mapTx) &&
                      forall x, i :: x in old(mapTx) && 0 <= i < |tx.vin| ==> !Spends(old(mapTx)[x], tx.vin[i].prevout)
      ensures mapTx == if ok then old(mapTx)[tx.hash := tx] else old(mapTx)
    {
      if tx.hash in mapTx {
        return false;
      }
      for i := 0 to |tx.vin|
        invariant forall k :: 0 <= k < i ==> tx.vin[k].prevout !in mapNextTx
        invariant forall x, k :: x in mapTx && 0 <= k < i ==> !Spends(mapTx[x], tx.vin[k].prevout)
        invariant mapTx == old(mapTx) && mapNextTx == old(mapNextTx)
      {
        FindSpender(tx.vin[i].prevout);
        if tx.vin[i].prevout in mapNextTx {
          return false;
        }
      }
      AddUnchecked(tx);
      return true;
    }

    /** Takes one transaction and its index entries out. */
    method Erase(tx: Tx)
      requires Inv() && (tx.hash in mapTx ==> mapTx[tx.hash] == tx)
      modifies this
      ensures Inv() && mapTx == old(mapTx) - {tx.hash}
    {
      if tx.hash in mapTx {
        for i := 0 to |tx.vin|
          invariant mapTx == old(mapTx)
          invariant forall o :: o in mapNextTx <==>
                      o in old(mapNextTx) && forall k :: 0 <= k < i ==> tx.vin[k].prevout != o
          invariant forall o :: o in mapNextTx ==> mapNextTx[o] == old(mapNextTx)[o]
        {
          mapNextTx := mapNextTx - {tx.vin[i].prevout};
        }
        mapTx := mapTx - {tx.hash};
      }
    }

    /** What can still be reached by the recursion of Remove. */
    ghost function Above(h: Hash): set<Hash>
      reads this
    {
      set id | id in mapTx && rank(id) > rank(h)
    }

    /** Recursive removal takes out the transaction and exactly its in-pool descendants. The recursion ends because
        spending is acyclic. */
    method Remove(tx: Tx, fRecursive: bool)
      requires Inv() && (tx.hash in mapTx ==> mapTx[tx.hash] == tx)
      modifies this
      ensures Inv()
      ensures mapTx == (if fRecursive then Minus(old(mapTx), rank, Outputs(tx, |tx.vout|)) else old(mapTx)) - {tx.hash}
      decreases Above(tx.hash)
    {
      ghost var pool := mapTx;
      AllUnique();
      if fRecursive {
        assert Minus(pool, rank, {}) == pool by {
          forall d | d in pool ensures !Doomed(pool, rank, {}, d) {
            MinusNothing(pool, rank, d);
          }
        }
        assert Outputs(tx, 0) == {};
        for i := 0 to |tx.vout|
          invariant Inv() && mapTx == Minus(pool, rank, Outputs(tx, i))
          invariant tx.hash in mapTx ==> mapTx[tx.hash] == tx
        {
          var o := OutPoint(tx.hash, i);
          FindSpender(o);
          assert Outputs(tx, i + 1) == Outputs(tx, i) + {o};
          if o in mapNextTx {
            var c := mapNextTx[o].hash;
            OnlySpender(pool, Outputs(tx, i), o, c);
            MinusOneMore(pool, rank, Outputs(tx, i), o, c);
            assert c in old(Above(tx.hash)) && Above(c) <= old(Above(tx.hash)) - {c};
            Remove(mapTx[c], true);
          } else {
            NoSpenderLeft(pool, Outputs(tx, i), o);
            MinusUnspent(pool, rank, Outputs(tx, i), o);
          }
        }
      }
      Erase(tx);
    }

    lemma AllUnique()
      requires Inv()
      ensures UniqueSpenders(mapTx)
    {
      forall x, y, o | x in mapTx && y in mapTx && Spends(mapTx[x], o) && Spends(mapTx[y], o) ensures x == y {
        FindSpender(o);
      }
    }

    lemma OnlySpender(pool: Pool, S: set<OutPoint>, o: OutPoint, c: Hash)
      requires Inv() && Acyclic(pool, rank) && mapTx == Minus(pool, rank, S)
      requires c in mapTx && Spends(mapTx[c], o)
      requires UniqueSpenders(pool)
      ensures c in pool && Spends(pool[c], o) && !Doomed(pool, rank, S, c)
      ensures forall x :: x in pool && Spends(pool[x], o) ==> x == c
    {
    }

    lemma NoSpenderLeft(pool: Pool, S: set<OutPoint>, o: OutPoint)
      requires Inv() && Acyclic(pool, rank) && mapTx == Minus(pool, rank, S)
      requires forall x :: x in mapTx ==> !Spends(mapTx[x], o)
      ensures forall x :: x in pool && Spends(pool[x], o) ==> Doomed(pool, rank, S, x)
    {
      forall x | x in pool && !Doomed(pool, rank, S, x) ensures !Spends(pool[x], o) {
        assert x in Minus(pool, rank, S);
      }
    }

    lemma OwnInput(tx: Tx, i: nat)
      requires Inv() && i < |tx.vin|
      ensures tx.hash in mapTx && mapTx[tx.hash] == tx ==>
                tx.vin[i].prevout in mapNextTx && mapNextTx[tx.vin[i].prevout].hash == tx.hash
    {
    }

    /** Removes the transactions that compete with tx for an input, and exactly what depends on them. */
    method RemoveConflicts(tx: Tx)
      requires Inv() && (tx.hash in mapTx ==> mapTx[tx.hash] == tx)
      modifies this
      ensures Inv()
      ensures mapTx == if tx.hash in old(mapTx) then old(mapTx) else Minus(old(mapTx), rank, Inputs(tx, |tx.vin|))
    {
      hide Doomed, Spends, Acyclic, KeysAreHashes, IsInverse;
      ghost var pool := mapTx;
      AllUnique();
      forall d | d in pool ensures !Doomed(pool, rank, {}, d) {
        MinusNothing(pool, rank, d);
      }
      assert Minus(pool, rank, {}) == pool && Inputs(tx, 0) == {};
      for i := 0 to |tx.vin|
        invariant Inv() && mapTx == if tx.hash in pool then pool else Minus(pool, rank, Inputs(tx, i))
      {
        var o := tx.vin[i].prevout;
        FindSpender(o);
        OwnInput(tx, i);
        assert Inputs(tx, i + 1) == Inputs(tx, i) + {o};
        if o in mapNextTx {
          var txConflict := mapTx[mapNextTx[o].hash];
          if txConflict != tx {
            OnlySpender(pool, Inputs(tx, i), o, txConflict.hash);
            MinusOneMore(pool, rank, Inputs(tx, i), o, txConflict.hash);
            Remove(txConflict, true);
          }
        } else if tx.hash !in pool {
          NoSpenderLeft(pool, Inputs(tx, i), o);
          MinusUnspent(pool, rank, Inputs(tx, i), o);
        }
      }
    }

    /** What SetBestChain does to the pool for the transactions of connected blocks: one after the other goes, with its
        rivals and what depends on them. In the end none of them stays, and nothing that stays spends an output they
        spend. */
    method DeleteConnected(vDelete: seq<Tx>)
      requires Inv()
      requires forall i :: 0 <= i < |vDelete| && vDelete[i].hash in mapTx ==> mapTx[vDelete[i].hash] == vDelete[i]
      modifies this
      ensures Inv() && Submap(mapTx, old(mapTx)) && mapTx == Settled(old(mapTx), rank, vDelete)
      ensures forall i :: 0 <= i < |vDelete| ==> Gone(mapTx, vDelete[i])
    {
      hide Doomed, Spends, Acyclic, KeysAreHashes, IsInverse, Gone, Minus;
      for i := 0 to |vDelete|
        invariant Inv() && Submap(mapTx, old(mapTx)) && mapTx == Settled(old(mapTx), rank, vDelete[..i])
        invariant forall k :: 0 <= k < i ==> Gone(mapTx, vDelete[k])
      {
        var tx := vDelete[i];
        ghost var before := mapTx;
        Remove(tx, false);
        ghost var pool := mapTx;
        RemoveConflicts(tx);
        NoConflictLeft(pool, tx);
        MinusFacts(pool, rank, Inputs(tx, |tx.vin|));
        forall k | 0 <= k < i ensures Gone(mapTx, vDelete[k]) {
          GoneStays(before, mapTx, vDelete[k]);
        }
        assert vDelete[..i + 1][..i] == vDelete[..i];
      }
      assert vDelete[..|vDelete|] == vDelete;
    }

    lemma GoneStays(before: Pool, after: Pool, tx: Tx)
      requires Gone(before, tx) && Submap(after, before)
      ensures Gone(after, tx)
    {
    }

    lemma NoConflictLeft(pool: Pool, tx: Tx)
      requires Acyclic(pool, rank) && tx.hash !in pool
      ensures Gone(Minus(pool, rank, Inputs(tx, |tx.vin|)), tx)
    {
      var S := Inputs(tx, |tx.vin|);
      forall x, i | x in pool && 0 <= i < |tx.vin| && Spends(pool[x], tx.vin[i].prevout)
        ensures Doomed(pool, rank, S, x)
      {
        assert tx.vin[i].prevout in S;
        var k :| 0 <= k < |pool[x].vin| && pool[x].vin[k].prevout == tx.vin[i].prevout;
      }
    }
  }

  lemma FewerAcyclic(pool: Pool, rank: Hash -> nat, h: Hash)
    requires Acyclic(pool, rank)
    ensures Acyclic(pool - {h}, rank)
  {
  }

  /** The pool after these transactions were connected. */
  ghost function Settled(pool: Pool, rank: Hash -> nat, txs: seq<Tx>): (after: Pool)
    requires Acyclic(pool, rank)
    ensures Acyclic(after, rank)
  {
    if txs == [] then pool
    else
      var tx := txs[|txs| - 1];
      var rest := Settled(pool, rank, txs[..|txs| - 1]) - {tx.hash};
      FewerAcyclic(Settled(pool, rank, txs[..|txs| - 1]), rank, tx.hash);
      MinusFacts(rest, rank, Inputs(tx, |tx.vin|));
      Minus(rest, rank, Inputs(tx, |tx.vin|))
  }

  /** While nothing in the pool competes with the connected transactions, exactly they leave it, and what spends their
      outputs stays. */
  lemma {:induction false} OnlyConnectedLeave(pool: Pool, rank: Hash -> nat, txs: seq<Tx>)
    requires Acyclic(pool, rank)
    requires forall x, i, k :: x in pool && 0 <= i < |txs| && 0 <= k < |txs[i].vin| && x != txs[i].hash ==>
               !Spends(pool[x], txs[i].vin[k].prevout)
    ensures Settled(pool, rank, txs) == pool - set i | 0 <= i < |txs| :: txs[i].hash
  {
    if txs != [] {
      var last := |txs| - 1;
      var tx, front := txs[last], txs[..last];
      OnlyConnectedLeave(pool, rank, front);
      var rest := Settled(pool, rank, front) - {tx.hash};
      FewerAcyclic(Settled(pool, rank, front), rank, tx.hash);
      forall x | x in rest ensures !Doomed(rest, rank, Inputs(tx, |tx.vin|), x) {
        NoRivalsNoLoss(rest, rank, tx, x);
      }
      assert Minus(rest, rank, Inputs(tx, |tx.vin|)) == rest;
      assert (set i | 0 <= i < |txs| :: txs[i].hash) == (set i | 0 <= i < last :: front[i].hash) + {tx.hash};
    }
  }

  lemma {:induction false} NoRivalsNoLoss(pool: Pool, rank: Hash -> nat, tx: Tx, d: Hash)
    requires Acyclic(pool, rank) && d in pool
    requires forall x, k :: x in pool && 0 <= k < |tx.vin| ==> !Spends(pool[x], tx.vin[k].prevout)
    ensures !Doomed(pool, rank, Inputs(tx, |tx.vin|), d)
    decreases rank(d)
  {
    var S := Inputs(tx, |tx.vin|);
    if Doomed(pool, rank, S, d) {
      var i :| 0 <= i < |pool[d].vin| && (pool[d].vin[i].prevout in S || ViaParent(pool, rank, S, d, i));
      var p := pool[d].vin[i].prevout;
      if p in S {
        assert Spends(pool[d], p);
      } else {
        NoRivalsNoLoss(pool, rank, tx, p.hash);
      }
    }
  }

  /** Neither tx nor a rival for one of its inputs is in the pool. */
  ghost predicate Gone(pool: Pool, tx: Tx) {
    tx.hash !in pool && forall x, i :: x in pool && 0 <= i < |tx.vin| ==> !Spends(pool[x], tx.vin[i].prevout)
  }
}
