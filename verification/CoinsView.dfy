/** CCoinsViewDB and the write-back overlays stacked on it (CCoinsViewCache). */
module CoinsViews {
  import opened Basics
  import opened Transactions
  import opened CoinsRules
  import opened Ledger
  import opened BlockTree

  /** The coin database. It stores no fully spent entry. */
  class CoinsDb {
    var store: CoinMap
    var best: BlockIndex?

    constructor ()
      ensures store == map[] && best == null
    {
      store, best := map[], null;
    }

    /** One atomic batch, or nothing when the write fails (`writable` is false). */
    method BatchWrite(mapCoins: CoinMap, pindex: BlockIndex?, writable: bool) returns (ok: bool)
      modifies this
      ensures ok == writable
      ensures !ok ==> store == old(store) && best == old(best)
      ensures ok ==> Same(store, old(store) + mapCoins)
      ensures ok ==> best == if pindex == null then old(best) else pindex
    {
      if !writable {
        return false;
      }
      var todo := mapCoins.Keys;
      while todo != {}
        invariant todo <= mapCoins.Keys && best == old(best)
        invariant forall id :: At(store, id) ==
                               if id in mapCoins && id !in todo then At(mapCoins, id) else At(old(store), id)
        decreases todo
      {
        var id :| id in todo;
        if mapCoins[id].IsPruned() {
          store := store - {id};
        } else {
          store := store[id := mapCoins[id]];
        }
        todo := todo - {id};
      }
      if pindex != null {
        best := pindex;
      }
      return true;
    }
  }

  /** Caching what the layer below says changes nothing for a reader. */
  lemma OverlayRead(below: CoinMap, cache: CoinMap, id: Hash)
    requires id in below && id !in cache
    ensures below + cache[id := below[id]] == below + cache
  {
  }

  lemma OverlayMerge(below: CoinMap, cache: CoinMap, writes: CoinMap)
    ensures (below + cache) + writes == below + (cache + writes)
  {
  }

  lemma OverlayWrite(cache: CoinMap, todo: set<Hash>, writes: CoinMap, id: Hash)
    requires id in todo && todo <= writes.Keys
    ensures (cache + (writes - todo))[id := writes[id]] == cache + (writes - (todo - {id}))
  {
  }

  class ViewCache {
    var cacheCoins: CoinMap
    var pindexTip: BlockIndex?
    const base: ViewCache?
    const db: CoinsDb
    ghost const views: set<ViewCache>

    /** The stack below is finite and free of cycles. All fields it mentions are constants. */
    ghost predicate Valid()
      decreases views
    {
      && this in views
      && (base == null ==> views == {this})
      && (base != null ==> this !in base.views && views == base.views + {this} && base.db == db && base.Valid())
    }

    /** What a reader sees: the overlays merged, topmost first. */
    ghost function Contents(): CoinMap
      requires Valid()
      reads views, db
      decreases views
    {
      (if base == null then db.store else base.Contents()) + cacheCoins
    }

    /** The best block a reader sees; every layer fetches it lazily from the one below. */
    ghost function Best(): BlockIndex?
      requires Valid()
      reads views, db
      decreases views
    {
      if pindexTip != null then pindexTip else if base == null then db.best else base.Best()
    }

    /** The layer below shows what it showed before, and a best block once fetched stays fetched. */
    twostate predicate BelowKept()
      requires Valid()
      reads views, db
    {
      && (old(pindexTip) != null ==> pindexTip != null)
      && BaseKept()
    }

    twostate predicate BaseKept()
      requires Valid()
      reads views, db
    {
      base != null ==> base.Contents() == old(base.Contents()) && base.Best() == old(base.Best())
    }

    constructor OverDb(db: CoinsDb)
      ensures Valid() && this.db == db && base == null && views == {this}
      ensures cacheCoins == map[] && pindexTip == null
    {
      this.db, base, views := db, null, {this};
      cacheCoins, pindexTip := map[], null;
    }

    constructor Over(base: ViewCache)
      requires base.Valid()
      ensures Valid() && this.base == base && db == base.db && views == base.views + {this}
      ensures cacheCoins == map[] && pindexTip == null
      ensures Contents() == base.Contents() && Best() == base.Best()
    {
      this.db, this.base, views := base.db, base, base.views + {this};
      cacheCoins, pindexTip := map[], null;
    }

    /** Copies the entry out, caching it at every layer it was read through. */
    method GetCoins(id: Hash) returns (coins: Option<Coins>)
      requires Valid()
      modifies views
      ensures Contents() == old(Contents()) && Best() == old(Best())
      ensures BelowKept()
      ensures coins == if id in Contents() then Some(Contents()[id]) else None
      ensures cacheCoins == if id in Contents() then old(cacheCoins)[id := Contents()[id]] else old(cacheCoins)
      ensures pindexTip == old(pindexTip)
      decreases views
    {
      if id in cacheCoins {
        return Some(cacheCoins[id]);
      }
      if base == null {
        coins := if id in db.store then Some(db.store[id]) else None;
      } else {
        coins := base.GetCoins(id);
      }
      if coins.Some? {
        OverlayRead(if base == null then db.store else base.Contents(), cacheCoins, id);
        cacheCoins := cacheCoins[id := coins.value];
      }
    }

    /** Brings an entry into this layer's cache. */
    method FetchCoins(id: Hash) returns (found: bool)
      requires Valid()
      modifies views
      ensures Contents() == old(Contents()) && Best() == old(Best())
      ensures BelowKept()
      ensures found <==> id in Contents()
      ensures found ==> id in cacheCoins && cacheCoins[id] == Contents()[id]
    {
      if id in cacheCoins {
        return true;
      }
      var tmp: Option<Coins>;
      if base == null {
        tmp := if id in db.store then Some(db.store[id]) else None;
      } else {
        tmp := base.GetCoins(id);
      }
      if tmp.None? {
        return false;
      }
      OverlayRead(if base == null then db.store else base.Contents(), cacheCoins, id);
      cacheCoins := cacheCoins[id := tmp.value];
      return true;
    }

    method HaveCoins(id: Hash) returns (found: bool)
      requires Valid()
      modifies views
      ensures Contents() == old(Contents()) && Best() == old(Best())
      ensures BelowKept()
      ensures found <==> id in Contents()
    {
      found := FetchCoins(id);
    }

    method SetCoins(id: Hash, coins: Coins)
      requires Valid()
      modifies this`cacheCoins
      ensures Contents() == old(Contents())[id := coins] && Best() == old(Best())
      ensures BelowKept()
    {
      cacheCoins := cacheCoins[id := coins];
      assert Contents() == old(Contents())[id := coins];
    }

    method GetBestBlock() returns (b: BlockIndex?)
      requires Valid()
      modifies views
      ensures Contents() == old(Contents()) && Best() == old(Best()) && b == Best()
      ensures BelowKept()
      ensures cacheCoins == old(cacheCoins) && pindexTip == b
      decreases views
    {
      if pindexTip == null {
        if base == null {
          pindexTip := db.best;
        } else {
          var below := base.GetBestBlock();
          pindexTip := below;
        }
      }
      b := pindexTip;
    }

    method SetBestBlock(b: BlockIndex)
      requires Valid()
      modifies this`pindexTip
      ensures Contents() == old(Contents()) && Best() == pindexTip == b
      ensures BelowKept()
    {
      pindexTip := b;
    }

    /** Receives the flushed cache of the layer above. */
    method BatchWrite(mapCoins: CoinMap, pindex: BlockIndex?)
      requires Valid()
      modifies this
      ensures Contents() == old(Contents()) + mapCoins
      ensures Best() == if pindex == null then (if base == null then db.best else base.Best()) else pindex
      ensures cacheCoins == old(cacheCoins) + mapCoins && pindexTip == pindex
      ensures BaseKept()
    {
      ghost var below := if base == null then db.store else base.Contents();
      var todo := mapCoins.Keys;
      assert mapCoins - todo == map[];
      while todo != {}
        invariant todo <= mapCoins.Keys
        invariant cacheCoins == old(cacheCoins) + (mapCoins - todo)
        invariant pindexTip == old(pindexTip)
        decreases todo
      {
        var id :| id in todo;
        OverlayWrite(old(cacheCoins), todo, mapCoins, id);
        cacheCoins := cacheCoins[id := mapCoins[id]];
        todo := todo - {id};
      }
      pindexTip := pindex;
      assert mapCoins - {} == mapCoins;
      OverlayMerge(below, old(cacheCoins), mapCoins);
    }

    /** Pushes the cache down one layer. Into another cache this cannot fail and is exact; the database drops
        fully spent entries and may refuse. */
    method Flush(writable: bool) returns (ok: bool)
      requires Valid()
      modifies views, db
      ensures ok <==> base != null || writable
      ensures Same(Contents(), old(Contents()))
      ensures !ok ==> Contents() == old(Contents()) && cacheCoins == old(cacheCoins) && Best() == old(Best())
      ensures ok ==> cacheCoins == map[]
      ensures base != null ==> Contents() == old(Contents()) && base.Contents() == old(Contents())
      ensures base == null && ok ==> Same(db.store, old(Contents()))
      ensures pindexTip == old(pindexTip)
      ensures pindexTip != null ==> Best() == pindexTip && (base != null ==> base.Best() == pindexTip == base.pindexTip)
      ensures pindexTip != null && base == null && ok ==> db.best == pindexTip
      ensures base != null ==> db.store == old(db.store) && db.best == old(db.best)
    {
      if base != null {
        base.BatchWrite(cacheCoins, pindexTip);
        cacheCoins := map[];
        assert Contents() == base.Contents();
        return true;
      }
      ok := db.BatchWrite(cacheCoins, pindexTip, writable);
      if ok {
        cacheCoins := map[];
        assert Contents() == db.store;
      }
    }
  }
}
