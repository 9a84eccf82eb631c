/** CAddrMan: a stochastic table of peer addresses kept in five indexes that must agree. */
module AddressManager {

  const TRIED_BUCKET_COUNT: int := 64
  const TRIED_BUCKET_SIZE: int := 64
  const NEW_BUCKET_COUNT: int := 256
  const NEW_BUCKET_SIZE: int := 64
  const NEW_BUCKETS_PER_ADDRESS: int := 4
  const TRIED_ENTRIES_INSPECT_ON_EVICT: int := 4
  const HORIZON_DAYS: int := 30
  const RETRIES: int := 3
  const MAX_FAILURES: int := 10
  const MIN_FAIL_DAYS: int := 7
  const GETADDR_MAX_PCT: int := 23
  const GETADDR_MAX: int := 2500

  /** A network address with a port (CService); `ip` alone is the CNetAddr. Service flags are sets of bit numbers. */
  datatype Service = Service(ip: nat, port: nat)

  datatype Info = Info(addr: Service, nServices: set<nat>, nTime: int, source: nat, nLastSuccess: int, nLastTry: int,
                       nAttempts: int, nRefCount: int, fInTried: bool, nRandomPos: int)
  {
    predicate IsTerrible(nNow: int) {
      if nLastTry != 0 && nLastTry >= nNow - 60 then false
      else
        || nTime > nNow + 10 * 60
        || nTime == 0 || nNow - nTime > HORIZON_DAYS * 86400
        || (nLastSuccess == 0 && nAttempts >= RETRIES)
        || (nNow - nLastSuccess > MIN_FAIL_DAYS * 86400 && nAttempts >= MAX_FAILURES)
    }
  }

  /** Nothing tried in the last minute is evicted as terrible; of the rest exactly what claims to come from the future,
      was not seen for thirty days, failed three times without ever a success, or failed ten times since a success more
      than a week ago. */
  lemma TerribleIs(info: Info, now: int)
    ensures info.nLastTry != 0 && now - info.nLastTry <= 60 ==> !info.IsTerrible(now)
    ensures info.nLastTry == 0 || now - info.nLastTry > 60 ==>
              (info.IsTerrible(now) <==>
                 || info.nTime - now > 600
                 || info.nTime == 0 || now - info.nTime > 2_592_000
                 || (info.nLastSuccess == 0 && info.nAttempts >= 3)
                 || (now - info.nLastSuccess > 604_800 && info.nAttempts >= 10))
  {
  }

  type Infos = map<int, Info>

  /** A CAddress as peers announce it. */
  datatype Address = Address(addr: Service, nServices: set<nat>, nTime: nat)

  function AddressOf(info: Info): Address
    requires info.nTime >= 0
  {
    Address(info.addr, info.nServices, info.nTime)
  }

  function Max0(n: int): nat {
    if n < 0 then 0 else n
  }

  // ---------- the choice among tried entries

  /** Four random draws shuffle the front of a tried bucket; `oldest` is the entry that connected longest ago among
      those drawn so far, `pos` the position it was drawn from. Both are -1 before the first draw. */
  datatype Choice = Choice(order: seq<int>, oldest: int, pos: int)

  ghost predicate DrawsOk(draws: seq<nat>, size: nat) {
    |draws| <= size && forall i :: 0 <= i < |draws| ==> draws[i] < size - i
  }

  function SwappedAt(s: seq<int>, i: nat, p: nat): seq<int>
    requires i < |s| && p < |s|
  {
    s[p := s[i]][i := s[p]]
  }

  ghost function Choose(m: Infos, v: seq<int>, draws: seq<nat>): (c: Choice)
    requires DrawsOk(draws, |v|) && forall id :: id in v ==> id in m
    ensures |c.order| == |v| && (forall id :: id in c.order ==> id in m)
    ensures if draws == [] then c.pos == -1 else 0 <= c.pos < |v| && c.oldest in m
  {
    if draws == [] then Choice(v, -1, -1)
    else
      var i := |draws| - 1;
      assert DrawsOk(draws[..i], |v|);
      var c, p := Choose(m, v, draws[..i]), draws[i] + i;
      var drawn := c.order[p];
      if c.pos == -1 || m[drawn].nLastSuccess < m[c.oldest].nLastSuccess
      then Choice(SwappedAt(c.order, i, p), drawn, p)
      else Choice(SwappedAt(c.order, i, p), c.oldest, c.pos)
  }

  /** The entry that makes place in a full bucket v, four random draws decide which. */
  ghost predicate Evicts(m: Infos, v: seq<int>, draws: seq<nat>, evicted: int) {
    && |draws| == (if |v| < 4 then |v| else 4) > 0 && DrawsOk(draws, |v|) && (forall id :: id in v ==> id in m)
    && var c := Choose(m, v, draws); evicted == c.order[c.pos]
  }

  ghost function Without(vv: seq<set<int>>, n: int): (r: seq<set<int>>)
    ensures |r| == |vv| && forall b :: 0 <= b < |vv| ==> r[b] == vv[b] - {n}
  {
    seq(|vv|, b requires 0 <= b < |vv| => vv[b] - {n})
  }

  lemma {:induction false} SameChoice(m: Infos, m': Infos, v: seq<int>, draws: seq<nat>)
    requires DrawsOk(draws, |v|) && (forall id :: id in v ==> id in m)
    requires m'.Keys == m.Keys && forall id :: id in m ==> m'[id].nLastSuccess == m[id].nLastSuccess
    ensures Choose(m', v, draws) == Choose(m, v, draws)
  {
    if draws != [] {
      assert DrawsOk(draws[..|draws| - 1], |v|);
      SameChoice(m, m', v, draws[..|draws| - 1]);
    }
  }

  ghost predicate Distinct(s: seq<int>) {
    forall i, j :: 0 <= i < j < |s| ==> s[i] != s[j]
  }

  lemma SwapDistinct(s: seq<int>, i: nat, p: nat)
    requires i < |s| && p < |s| && Distinct(s)
    ensures Distinct(SwappedAt(s, i, p))
  {
  }

  /** The entry that connected longest ago among the inspected ones ends up at position j, but the position reported is
      the one it was drawn from. So what is found there, and evicted, is the oldest inspected entry exactly when that
      was drawn from where it stays. */
  lemma {:induction false} ChosenIsOldest(m: Infos, v: seq<int>, draws: seq<nat>) returns (j: nat)
    requires DrawsOk(draws, |v|) && draws != [] && (forall id :: id in v ==> id in m) && Distinct(v)
    ensures var c := Choose(m, v, draws);
            && Distinct(c.order) && j < |draws| && c.order[j] == c.oldest && c.pos == draws[j] + j
            && (forall i :: 0 <= i < |draws| ==> m[c.oldest].nLastSuccess <= m[c.order[i]].nLastSuccess)
            && (c.order[c.pos] == c.oldest <==> draws[j] == 0)
  {
    hide Choose;
    var i := |draws| - 1;
    var front := draws[..i];
    var before, p := Choose(m, v, front), draws[i] + i;
    OneMoreDraw(m, v, front, draws[i]);
    assert front + [draws[i]] == draws;
    if i == 0 {
      NoDraws(m, v);
      j := 0;
    } else {
      j := ChosenIsOldest(m, v, front);
      if m[before.order[p]].nLastSuccess < m[before.oldest].nLastSuccess {
        j := i;
      }
    }
    SwapDistinct(before.order, i, p);
  }

  /** Two entries, the second drawn first: the newer one is evicted although the older one was inspected. */
  lemma NewerEvicted(m: Infos, newer: int, older: int)
    requires newer in m && older in m && m[older].nLastSuccess < m[newer].nLastSuccess
    ensures DrawsOk([1, 0], 2)
    ensures var c := Choose(m, [newer, older], [1, 0]);
            c.oldest == older && c.order[c.pos] == newer
  {
    assert [1, 0][..1] == [1] && [1][..0] == [];
    assert Choose(m, [newer, older], []) == Choice([newer, older], -1, -1);
    assert DrawsOk([1], 2);
    assert Choose(m, [newer, older], [1]) == Choice([older, newer], older, 1);
  }

  // ---------- counting

  /** In how many buckets n occurs. */
  function InBuckets(vv: seq<set<int>>, n: int): nat {
    if vv == [] then 0 else InBuckets(vv[..|vv| - 1], n) + (if n in vv[|vv| - 1] then 1 else 0)
  }

  function AllOf(vv: seq<seq<int>>): multiset<int> {
    if vv == [] then multiset{} else AllOf(vv[..|vv| - 1]) + multiset(vv[|vv| - 1])
  }

  lemma {:induction false} InBucketsUpdate(vv: seq<set<int>>, b: nat, s: set<int>, n: int)
    requires b < |vv|
    ensures InBuckets(vv[b := s], n) == InBuckets(vv, n) - (if n in vv[b] then 1 else 0) + (if n in s then 1 else 0)
  {
    var last := |vv| - 1;
    if b == last {
      assert vv[b := s][..last] == vv[..last];
    } else {
      InBucketsUpdate(vv[..last], b, s, n);
      assert vv[b := s][..last] == vv[..last][b := s];
    }
  }

  lemma {:induction false} InNoBucket(vv: seq<set<int>>, n: int)
    ensures InBuckets(vv, n) == 0 <==> forall b :: 0 <= b < |vv| ==> n !in vv[b]
  {
    if vv != [] {
      InNoBucket(vv[..|vv| - 1], n);
    }
  }

  lemma {:induction false} AllOfUpdate(vv: seq<seq<int>>, b: nat, s: seq<int>)
    requires b < |vv|
    ensures multiset(vv[b]) <= AllOf(vv)
    ensures AllOf(vv[b := s]) == AllOf(vv) - multiset(vv[b]) + multiset(s)
  {
    var last := |vv| - 1;
    if b == last {
      assert vv[b := s][..last] == vv[..last];
    } else {
      AllOfUpdate(vv[..last], b, s);
      assert vv[b := s][..last] == vv[..last][b := s];
    }
  }

  function TriedIds(m: Infos): set<int> {
    set n | n in m && m[n].fInTried
  }

  function NewIds(m: Infos): set<int> {
    set n | n in m && !m[n].fInTried
  }

  // ---------- the conditions of Check_, one index at a time

  /** vRandom lists every id once, and every entry knows its place. */
  ghost predicate RandomOk(m: Infos, vRandom: seq<int>) {
    && |vRandom| == |m|
    && (forall n :: n in m ==> 0 <= m[n].nRandomPos < |vRandom| && vRandom[m[n].nRandomPos] == n)
    && (forall i :: 0 <= i < |vRandom| ==> vRandom[i] in m && m[vRandom[i]].nRandomPos == i)
  }

  /** mapAddr is the inverse of the entries' addresses. */
  ghost predicate AddrOk(m: Infos, mapAddr: map<nat, int>) {
    && (forall n :: n in m ==> m[n].addr.ip in mapAddr && mapAddr[m[n].addr.ip] == n)
    && (forall ip :: ip in mapAddr ==> mapAddr[ip] in m && m[mapAddr[ip]].addr.ip == ip)
  }

  /** The tried buckets hold exactly the tried entries, each once. */
  ghost predicate TriedOk(m: Infos, vvTried: seq<seq<int>>) {
    && |vvTried| == TRIED_BUCKET_COUNT
    && (forall b :: 0 <= b < |vvTried| ==> |vvTried[b]| <= TRIED_BUCKET_SIZE)
    && (forall n :: AllOf(vvTried)[n] == if n in m && m[n].fInTried then 1 else 0)
  }

  function Refs(m: Infos, n: int): int {
    if n in m then m[n].nRefCount else 0
  }

  /** A reference count is the number of new buckets the entry is in, except that the count of `ahead` is one more. */
  ghost predicate NewOk(m: Infos, vvNew: seq<set<int>>, ahead: int) {
    && |vvNew| == NEW_BUCKET_COUNT
    && (forall b :: 0 <= b < |vvNew| ==> |vvNew[b]| <= NEW_BUCKET_SIZE)
    && (forall n :: InBuckets(vvNew, n) == Refs(m, n) - (if 0 <= n == ahead then 1 else 0))
  }

  /** What Check_ asks of each entry alone. `loose` may have no reference yet. */
  ghost predicate EntryOk(info: Info, loose: bool) {
    && (if info.fInTried then info.nLastSuccess != 0 && info.nRefCount == 0
        else (if loose then 0 else 1) <= info.nRefCount <= NEW_BUCKETS_PER_ADDRESS)
    && info.nLastTry >= 0 && info.nLastSuccess >= 0 && info.nTime >= 0
  }

  ghost predicate EntriesOk(m: Infos, nIdCount: int, loose: int) {
    forall n :: n in m ==> 0 <= n < nIdCount && EntryOk(m[n], n == loose)
  }

  ghost predicate CountsOk(m: Infos, nTried: int, nNew: int) {
    nTried == |TriedIds(m)| && nNew == |NewIds(m)|
  }

  lemma TriedPlusNew(m: Infos)
    ensures |m| == |TriedIds(m)| + |NewIds(m)|
  {
    assert m.Keys == TriedIds(m) + NewIds(m);
    assert TriedIds(m) !! NewIds(m);
  }

  /** Entries that differ in no field the sets look at. */
  lemma SameFlags(m: Infos, m': Infos)
    requires m.Keys == m'.Keys && forall n :: n in m ==> m'[n].fInTried == m[n].fInTried
    ensures TriedIds(m') == TriedIds(m) && NewIds(m') == NewIds(m)
  {
    forall n ensures (n in m <==> n in m') && (n in TriedIds(m') <==> n in TriedIds(m)) {
      assert n in m.Keys <==> n in m'.Keys;
    }
    forall n ensures n in NewIds(m') <==> n in NewIds(m) {
      assert n in m.Keys <==> n in m'.Keys;
    }
  }

  /** Equal in everything the address, bucket and counter conditions look at. */
  ghost predicate SameCore(m: Infos, m': Infos) {
    && m'.Keys == m.Keys
    && forall n :: n in m ==>
         m'[n].addr == m[n].addr && m'[n].fInTried == m[n].fInTried && m'[n].nRefCount == m[n].nRefCount
  }

  /** Those conditions. */
  ghost predicate IndexesOk(m: Infos, mapAddr: map<nat, int>, vvTried: seq<seq<int>>, vvNew: seq<set<int>>,
                            ahead: int, nTried: int, nNew: int)
  {
    AddrOk(m, mapAddr) && TriedOk(m, vvTried) && NewOk(m, vvNew, ahead) && CountsOk(m, nTried, nNew)
  }

  lemma CoreKeeps(m: Infos, m': Infos, mapAddr: map<nat, int>, vvTried: seq<seq<int>>, vvNew: seq<set<int>>,
                  ahead: int, nTried: int, nNew: int)
    requires SameCore(m, m') && IndexesOk(m, mapAddr, vvTried, vvNew, ahead, nTried, nNew)
    ensures IndexesOk(m', mapAddr, vvTried, vvNew, ahead, nTried, nNew)
  {
    SameFlags(m, m');
    assert forall n :: n in m <==> n in m';
    assert forall n :: Refs(m', n) == Refs(m, n);
  }

  // ---------- one entry leaves

  lemma RandomDelete(m: Infos, v: seq<int>, n: int)
    requires RandomOk(m, v) && n in m && m[n].nRandomPos == |v| - 1
    ensures RandomOk(m - {n}, v[..|v| - 1])
  {
    var m', v' := m - {n}, v[..|v| - 1];
    assert m'.Keys == m.Keys - {n};
    forall k | k in m' ensures 0 <= m'[k].nRandomPos < |v'| && v'[m'[k].nRandomPos] == k {
      assert k in m && k != n;
    }
    forall i | 0 <= i < |v'| ensures v'[i] in m' && m'[v'[i]].nRandomPos == i {
      assert v[i] in m && v[i] != n;
    }
  }

  lemma AddrDelete(m: Infos, mapAddr: map<nat, int>, n: int)
    requires AddrOk(m, mapAddr) && n in m
    ensures AddrOk(m - {n}, mapAddr - {m[n].addr.ip})
  {
  }

  lemma CountsDelete(m: Infos, n: int, nTried: int, nNew: int)
    requires CountsOk(m, nTried, nNew) && n in m && !m[n].fInTried
    ensures CountsOk(m - {n}, nTried, nNew - 1)
  {
    assert TriedIds(m - {n}) == TriedIds(m);
    assert NewIds(m - {n}) == NewIds(m) - {n};
  }

  /** One reference to an entry that is not tried disappears from one bucket, the entry with its last one. */
  lemma BucketDelete(m: Infos, m': Infos, vvNew: seq<set<int>>, ahead: int, b: nat, n: int)
    requires NewOk(m, vvNew, ahead) && b < |vvNew| && n in vvNew[b] && n in m
    requires forall k :: k != n ==> Refs(m', k) == Refs(m, k)
    requires Refs(m', n) == Refs(m, n) - 1
    ensures NewOk(m', vvNew[b := vvNew[b] - {n}], ahead)
  {
    forall k ensures InBuckets(vvNew[b := vvNew[b] - {n}], k) == InBuckets(vvNew, k) - (if k == n then 1 else 0) {
      InBucketsUpdate(vvNew, b, vvNew[b] - {n}, k);
    }
    assert |vvNew[b] - {n}| <= |vvNew[b]|;
  }

  lemma SwapPlaces(m: Infos, v: seq<int>, p: nat, q: nat)
    requires RandomOk(m, v) && p < |v| && q < |v| && p != q
    ensures v[p] in m && v[q] in m && v[p] != v[q]
    ensures var m1 := m[v[p] := m[v[p]].(nRandomPos := q)];
            var m2 := m1[v[q] := m1[v[q]].(nRandomPos := p)];
            RandomOk(m2, v[p := v[q]][q := v[p]]) && SameButPlace(m, m2)
  {
    var m1 := m[v[p] := m[v[p]].(nRandomPos := q)];
    var m2 := m1[v[q] := m1[v[q]].(nRandomPos := p)];
    assert m1.Keys == m.Keys && m2.Keys == m.Keys;
  }

  // ---------- one entry changes

  /** Only the times, the attempts and the services of n change. */
  ghost predicate Touched(m: Infos, m': Infos, n: int) {
    && n in m && n in m'
    && m' == m[n := m[n].(nTime := m'[n].nTime, nServices := m'[n].nServices, nLastSuccess := m'[n].nLastSuccess,
                          nLastTry := m'[n].nLastTry, nAttempts := m'[n].nAttempts)]
  }

  lemma TouchKeeps(m: Infos, m': Infos, n: int, mapAddr: map<nat, int>, v: seq<int>, vvTried: seq<seq<int>>,
                   vvNew: seq<set<int>>, nIdCount: int, nTried: int, nNew: int)
    requires n in m && n in m' && Touched(m, m', n) && RandomOk(m, v) && EntriesOk(m, nIdCount, -1)
    requires IndexesOk(m, mapAddr, vvTried, vvNew, -1, nTried, nNew) && EntryOk(m'[n], false)
    ensures RandomOk(m', v) && EntriesOk(m', nIdCount, -1)
    ensures IndexesOk(m', mapAddr, vvTried, vvNew, -1, nTried, nNew)
  {
    hide IndexesOk;
    assert m'.Keys == m.Keys;
    CoreKeeps(m, m', mapAddr, vvTried, vvNew, -1, nTried, nNew);
  }

  /** n enters a bucket it was not in, and its count catches up. */
  lemma AddReference(m: Infos, vvNew: seq<set<int>>, b: nat, n: int)
    requires NewOk(m, vvNew, n) && n in m && n >= 0
    requires b < |vvNew| && n !in vvNew[b] && |vvNew[b]| < NEW_BUCKET_SIZE
    ensures NewOk(m, vvNew[b := vvNew[b] + {n}], -1)
  {
    forall k ensures InBuckets(vvNew[b := vvNew[b] + {n}], k) == Refs(m, k) {
      InBucketsUpdate(vvNew, b, vvNew[b] + {n}, k);
    }
  }

  // ---------- between the new and the tried buckets

  lemma TriedMember(m: Infos, vvTried: seq<seq<int>>, k: nat, id: int)
    requires TriedOk(m, vvTried) && k < |vvTried| && id in vvTried[k]
    ensures id in m && m[id].fInTried
  {
    AllOfUpdate(vvTried, k, []);
    assert id in multiset(vvTried[k]);
    assert AllOf(vvTried)[id] >= multiset(vvTried[k])[id];
  }

  lemma TriedEntry(m: Infos, nIdCount: int, id: int)
    requires EntriesOk(m, nIdCount, -1) && id in m && m[id].fInTried
    ensures id >= 0 && m[id].nRefCount == 0
  {
    assert EntryOk(m[id], false);
  }

  lemma Swapped(s: seq<int>, i: nat, p: nat)
    requires i < |s| && p < |s|
    ensures multiset(s[p := s[i]][i := s[p]]) == multiset(s)
  {
    Replaced(s, p, s[i]);
    Replaced(s[p := s[i]], i, s[p]);
  }

  lemma NoDraws(m: Infos, v: seq<int>)
    requires forall id :: id in v ==> id in m
    ensures DrawsOk([], |v|) && Choose(m, v, []) == Choice(v, -1, -1)
  {
  }

  lemma OneMoreDraw(m: Infos, v: seq<int>, draws: seq<nat>, draw: nat)
    requires DrawsOk(draws, |v|) && (forall id :: id in v ==> id in m)
    requires |draws| < |v| && draw < |v| - |draws|
    ensures DrawsOk(draws + [draw], |v|)
    ensures var i, c, c' := |draws|, Choose(m, v, draws), Choose(m, v, draws + [draw]);
            var drawn := c.order[draw + i];
            && c'.order == SwappedAt(c.order, i, draw + i)
            && if c.pos == -1 || m[drawn].nLastSuccess < m[c.oldest].nLastSuccess
            then c'.oldest == drawn && c'.pos == draw + i
            else c'.oldest == c.oldest && c'.pos == c.pos
  {
    MoreDraws(draws, draw, |v|);
    hide DrawsOk, SwappedAt;
    assert (draws + [draw])[..|draws|] == draws;
  }

  lemma MoreDraws(draws: seq<nat>, draw: nat, size: nat)
    requires DrawsOk(draws, size) && |draws| < size && draw < size - |draws|
    ensures DrawsOk(draws + [draw], size)
  {
  }

  lemma Permuted(m: Infos, vvTried: seq<seq<int>>, k: nat, s: seq<int>)
    requires TriedOk(m, vvTried) && k < |vvTried| && |s| == |vvTried[k]| && multiset(s) == multiset(vvTried[k])
    ensures TriedOk(m, vvTried[k := s])
  {
    AllOfUpdate(vvTried, k, s);
    assert AllOf(vvTried[k := s]) == AllOf(vvTried);
    hide AllOf;
  }

  lemma PlaceTried(m: Infos, m': Infos, vvTried: seq<seq<int>>, k: nat, n: int)
    requires TriedOk(m, vvTried) && k < |vvTried| && |vvTried[k]| < TRIED_BUCKET_SIZE
    requires n in m && !m[n].fInTried && Moved(m, m', n, -1)
    ensures TriedOk(m', vvTried[k := vvTried[k] + [n]])
  {
    var vv := vvTried[k := vvTried[k] + [n]];
    AllOfUpdate(vvTried, k, vvTried[k] + [n]);
    hide AllOf, Moved, TriedIds;
    assert multiset(vvTried[k] + [n]) == multiset(vvTried[k]) + multiset{n};
    assert AllOf(vv) == AllOf(vvTried) + multiset{n};
    forall i ensures AllOf(vv)[i] == if i in m' && m'[i].fInTried then 1 else 0 {
      MovedFlag(m, m', n, -1, i);
    }
  }

  lemma MovedFlag(m: Infos, m': Infos, n: int, evicted: int, k: int)
    requires Moved(m, m', n, evicted) && n in m && !m[n].fInTried
    requires evicted >= 0 ==> evicted in m && m[evicted].fInTried
    ensures k in m' && m'[k].fInTried <==> k == n || (k in m && m[k].fInTried && !(0 <= k == evicted))
  {
    assert k in m <==> k in m'.Keys;
  }

  lemma ReplaceTried(m: Infos, m': Infos, vvTried: seq<seq<int>>, k: nat, pos: nat, n: int)
    requires TriedOk(m, vvTried) && k < |vvTried| && pos < |vvTried[k]|
    requires n in m && !m[n].fInTried && vvTried[k][pos] >= 0 && Moved(m, m', n, vvTried[k][pos])
    ensures TriedOk(m', vvTried[k := vvTried[k][pos := n]])
  {
    var e, s := vvTried[k][pos], vvTried[k][pos := n];
    TriedMember(m, vvTried, k, e);
    AllOfUpdate(vvTried, k, s);
    Replaced(vvTried[k], pos, n);
    hide AllOf, Moved;
    ghost var was, now := AllOf(vvTried), AllOf(vvTried[k := s]);
    forall i ensures now[i] == if i in m' && m'[i].fInTried then 1 else 0 {
      MovedFlag(m, m', n, e, i);
      assert now[i] == was[i] - (if i == e then 1 else 0) + (if i == n then 1 else 0);
    }
  }

  lemma Replaced(s: seq<int>, pos: nat, n: int)
    requires pos < |s|
    ensures multiset(s[pos := n]) == multiset(s) - multiset{s[pos]} + multiset{n} && multiset(s)[s[pos]] >= 1
  {
    assert s[pos] in multiset(s);
  }

  /** n becomes tried and loses its references; the evicted entry, if there is one, becomes new with one. */
  ghost predicate Moved(m: Infos, m': Infos, n: int, evicted: int) {
    && m'.Keys == m.Keys
    && forall k :: k in m ==>
         m'[k] == (if k == n then m[k].(fInTried := true, nRefCount := 0)
                   else if 0 <= k == evicted then m[k].(fInTried := false, nRefCount := 1)
                   else m[k])
  }

  lemma MovedKeeps(m: Infos, m': Infos, n: int, evicted: int, mapAddr: map<nat, int>, v: seq<int>, nIdCount: int)
    requires RandomOk(m, v) && AddrOk(m, mapAddr) && EntriesOk(m, nIdCount, -1) && Moved(m, m', n, evicted)
    requires n in m && m[n].nLastSuccess > 0
    ensures RandomOk(m', v) && AddrOk(m', mapAddr) && EntriesOk(m', nIdCount, -1)
  {
    assert forall k :: k in m <==> k in m'.Keys;
  }

  lemma MovedMember(m: Infos, m': Infos, n: int, evicted: int, k: int)
    requires Moved(m, m', n, evicted) && n in m && !m[n].fInTried
    requires evicted >= 0 ==> evicted in m && m[evicted].fInTried
    ensures k in TriedIds(m') <==> k == n || (k in TriedIds(m) && !(0 <= k == evicted))
    ensures k in NewIds(m') <==> k != n && (k in NewIds(m) || 0 <= k == evicted)
  {
    assert k in m <==> k in m'.Keys;
  }

  lemma MovedSets(m: Infos, m': Infos, n: int, evicted: int)
    requires Moved(m, m', n, evicted) && n in m && !m[n].fInTried
    requires evicted >= 0 ==> evicted in m && m[evicted].fInTried
    ensures TriedIds(m') == (if evicted >= 0 then TriedIds(m) - {evicted} else TriedIds(m)) + {n}
    ensures NewIds(m') == NewIds(m) - {n} + (if evicted >= 0 then {evicted} else {})
  {
    hide Moved, TriedIds, NewIds;
    forall k
      ensures k in TriedIds(m') <==> k == n || (k in TriedIds(m) && !(0 <= k == evicted))
      ensures k in NewIds(m') <==> k != n && (k in NewIds(m) || 0 <= k == evicted)
    {
      MovedMember(m, m', n, evicted, k);
    }
    assert n !in {evicted} || evicted < 0 by {
      MovedMember(m, m', n, evicted, n);
    }
  }

  lemma MovedCounts(m: Infos, m': Infos, n: int, evicted: int, nTried: int, nNew: int)
    requires CountsOk(m, nTried, nNew) && Moved(m, m', n, evicted) && n in m && !m[n].fInTried
    requires evicted >= 0 ==> evicted in m && m[evicted].fInTried
    ensures if evicted >= 0 then CountsOk(m', nTried, nNew) else CountsOk(m', nTried + 1, nNew - 1)
  {
    assert n in NewIds(m) && n !in TriedIds(m);
    assert evicted >= 0 ==> evicted in TriedIds(m) && evicted !in NewIds(m);
    hide Moved, TriedIds, NewIds;
    MovedSets(m, m', n, evicted);
    if evicted >= 0 {
      Exchanged(TriedIds(m), evicted, n);
      Exchanged(NewIds(m), n, evicted);
    } else {
      assert NewIds(m) - {n} + {} == NewIds(m) - {n};
    }
  }

  lemma Exchanged(s: set<int>, x: int, y: int)
    requires x in s && y !in s
    ensures |s - {x} + {y}| == |s|
  {
  }

  /** Once n is in no new bucket, its references are gone and the evicted entry finds a place. */
  lemma MovedNew(m: Infos, m': Infos, vvOld: seq<set<int>>, vv: seq<set<int>>, n: int)
    requires NewOk(m, vvOld, -1) && Moved(m, m', n, -1) && n in m
    requires |vv| == |vvOld| && forall b :: 0 <= b < |vv| ==> vv[b] == vvOld[b] - {n}
    ensures NewOk(m', vv, -1)
  {
    forall k ensures InBuckets(vv, k) == Refs(m', k) {
      WithoutId(vvOld, vv, n, k);
      assert k in m <==> k in m'.Keys;
    }
    forall b | 0 <= b < |vv| ensures |vv[b]| <= NEW_BUCKET_SIZE {
      assert |vvOld[b] - {n}| <= |vvOld[b]|;
    }
  }

  lemma {:induction false} WithoutId(vvOld: seq<set<int>>, vv: seq<set<int>>, n: int, k: int)
    requires |vv| == |vvOld| && forall b :: 0 <= b < |vv| ==> vv[b] == vvOld[b] - {n}
    ensures InBuckets(vv, k) == if k == n then 0 else InBuckets(vvOld, k)
  {
    if vv != [] {
      WithoutId(vvOld[..|vv| - 1], vv[..|vv| - 1], n, k);
    }
  }

  lemma MovedReference(m: Infos, m1: Infos, m': Infos, vv: seq<set<int>>, n: int, evicted: int, b: nat)
    requires Moved(m, m1, n, -1) && Moved(m, m', n, evicted) && NewOk(m1, vv, -1)
    requires evicted in m && evicted >= 0 && m[evicted].fInTried && m[evicted].nRefCount == 0 && evicted != n
    requires b < |vv| && |vv[b]| < NEW_BUCKET_SIZE
    ensures NewOk(m', vv[b := vv[b] + {evicted}], -1)
  {
    assert evicted !in vv[b] by {
      InNoBucket(vv, evicted);
      assert m1[evicted] == m[evicted];
      assert InBuckets(vv, evicted) == Refs(m1, evicted) == 0;
    }
    forall k ensures Refs(m', k) == Refs(m1, k) + (if k == evicted then 1 else 0) {
      assert k in m' <==> k in m1.Keys;
    }
    AddReference(m', vv, b, evicted);
  }

  /** nOld leaves position pos of its tried bucket for nId. */
  lemma DisplacedIndexes(m: Infos, m2: Infos, nId: int, nOld: int, mapAddr: map<nat, int>, v: seq<int>,
                         vvTried: seq<seq<int>>, k: nat, pos: nat, nIdCount: int, nTried: int, nNew: int)
    requires RandomOk(m, v) && AddrOk(m, mapAddr) && TriedOk(m, vvTried) && EntriesOk(m, nIdCount, -1)
    requires CountsOk(m, nTried, nNew) && nId in m && m[nId].nLastSuccess > 0 && !m[nId].fInTried
    requires k < |vvTried| && pos < |vvTried[k]| && nOld == vvTried[k][pos] && nOld in m && m[nOld].fInTried
    requires m2 == m[nId := m[nId].(fInTried := true, nRefCount := 0)]
                    [nOld := m[nOld].(fInTried := false, nRefCount := 1)]
    ensures RandomOk(m2, v) && AddrOk(m2, mapAddr) && EntriesOk(m2, nIdCount, -1) && CountsOk(m2, nTried, nNew)
    ensures TriedOk(m2, vvTried[k := vvTried[k][pos := nId]]) && Moved(m, m2, nId, nOld)
  {
    hide RandomOk, AddrOk, TriedOk, CountsOk;
    assert EntryOk(m[nOld], false);
    assert m2.Keys == m.Keys;
    assert Moved(m, m2, nId, nOld);
    ReplaceTried(m, m2, vvTried, k, pos, nId);
    MovedKeeps(m, m2, nId, nOld, mapAddr, v, nIdCount);
    MovedCounts(m, m2, nId, nOld, nTried, nNew);
  }

  /** There is room for nOld where the source puts it: in its own new bucket, or in the one nId just left. */
  lemma DisplacedNew(m: Infos, m2: Infos, vvOld: seq<set<int>>, vv: seq<set<int>>, nId: int, nOld: int,
                     nOrigin: nat, to: nat)
    requires NewOk(m, vvOld, -1) && Moved(m, m2, nId, nOld) && nId in m && nOld in m && nOld >= 0 && nOld != nId
    requires m[nOld].fInTried && m[nOld].nRefCount == 0
    requires |vv| == |vvOld| && forall b :: 0 <= b < |vv| ==> vv[b] == vvOld[b] - {nId}
    requires nOrigin < |vv| && nId in vvOld[nOrigin]
    requires to < |vv| && (|vv[to]| < NEW_BUCKET_SIZE || to == nOrigin)
    ensures NewOk(m2, vv[to := vv[to] + {nOld}], -1)
  {
    var m1 := m[nId := m[nId].(fInTried := true, nRefCount := 0)];
    assert m1.Keys == m.Keys;
    MovedNew(m, m1, vvOld, vv, nId);
    assert |vvOld[nOrigin] - {nId}| < NEW_BUCKET_SIZE;
    MovedReference(m, m1, m2, vv, nId, nOld, to);
  }

  // ---------- the table

  class AddrMan {
    var nIdCount: int
    var mapInfo: Infos
    var mapAddr: map<nat, int>
    var vRandom: seq<int>
    var nTried: int
    var vvTried: seq<seq<int>>
    var nNew: int
    var vvNew: seq<set<int>>
    /** The keyed hashes behind GetTriedBucket and GetNewBucket. */
    const triedHash: Service -> nat
    const newHash: (nat, nat) -> nat

    /** Every condition of Check_ and the bucket size caps. In the middle of Add_ one entry's reference count runs
        one ahead of its buckets (`ahead`) or is still zero (`loose`). */
    ghost predicate Holds(ahead: int, loose: int)
      reads this
    {
      && RandomOk(mapInfo, vRandom)
      && AddrOk(mapInfo, mapAddr)
      && TriedOk(mapInfo, vvTried)
      && NewOk(mapInfo, vvNew, ahead)
      && EntriesOk(mapInfo, nIdCount, loose)
      && CountsOk(mapInfo, nTried, nNew)
      && 0 <= nIdCount
    }

    ghost predicate Inv()
      reads this
    {
      Holds(-1, -1)
    }

    /** The sizes that Check_ compares first: every known address is counted once, as tried or as new. */
    lemma AllCounted()
      requires Inv()
      ensures |vRandom| == nTried + nNew
    {
      TriedPlusNew(mapInfo);
    }

    /** 64 tried and 256 new buckets of at most 64 entries each; a new entry is in one to four new buckets, a tried one
        in none. */
    lemma TableSizes(b: nat, id: int)
      requires Inv() && id in mapInfo
      ensures |vvTried| == 64 && (b < 64 ==> |vvTried[b]| <= 64)
      ensures |vvNew| == 256 && (b < 256 ==> |vvNew[b]| <= 64)
      ensures 1 <= InBuckets(vvNew, id) <= 4 <==> !mapInfo[id].fInTried
      ensures InBuckets(vvNew, id) == mapInfo[id].nRefCount
      ensures AllOf(vvTried)[id] == if mapInfo[id].fInTried then 1 else 0
    {
    }

    function TriedBucket(a: Service): nat {
      triedHash(a) % TRIED_BUCKET_COUNT
    }

    function NewBucket(ip: nat, source: nat): nat {
      newHash(ip, source) % NEW_BUCKET_COUNT
    }

    constructor (triedHash: Service -> nat, newHash: (nat, nat) -> nat)
      ensures Inv() && mapInfo == map[] && nIdCount == 0
      ensures this.triedHash == triedHash && this.newHash == newHash
    {
      this.triedHash, this.newHash := triedHash, newHash;
      nIdCount, mapInfo, mapAddr, vRandom, nTried, nNew := 0, map[], map[], [], 0, 0;
      vvTried := seq(TRIED_BUCKET_COUNT, i => []);
      vvNew := seq(NEW_BUCKET_COUNT, i => {});
      new;
      EmptyTried(vvTried);
      forall n ensures InBuckets(vvNew, n) == 0 {
        InNoBucket(vvNew, n);
      }
    }

    lemma {:induction false} EmptyTried(vv: seq<seq<int>>)
      requires forall b :: 0 <= b < |vv| ==> vv[b] == []
      ensures AllOf(vv) == multiset{}
    {
      if vv != [] {
        EmptyTried(vv[..|vv| - 1]);
      }
    }

    method GetRandInt(n: nat) returns (r: nat)
      ensures n > 0 ==> r < n
    {
      if n == 0 {
        return 0;
      }
      r :| 0 <= r < n;
    }

    method Find(ip: nat) returns (nId: int)
      requires AddrOk(mapInfo, mapAddr) && forall n :: n in mapInfo ==> 0 <= n
      ensures nId == -1 <==> forall n :: n in mapInfo ==> mapInfo[n].addr.ip != ip
      ensures nId != -1 ==> nId in mapInfo && mapInfo[nId].addr.ip == ip
    {
      if ip !in mapAddr {
        return -1;
      }
      return mapAddr[ip];
    }

    /** The two entries exchange places; nothing else changes. */
    method SwapRandom(nRndPos1: nat, nRndPos2: nat)
      requires RandomOk(mapInfo, vRandom) && nRndPos1 < |vRandom| && nRndPos2 < |vRandom|
      modifies `mapInfo, `vRandom
      ensures RandomOk(mapInfo, vRandom)
      ensures vRandom == old(vRandom)[nRndPos1 := old(vRandom)[nRndPos2]][nRndPos2 := old(vRandom)[nRndPos1]]
      ensures SameButPlace(old(mapInfo), mapInfo)
    {
      if nRndPos1 == nRndPos2 {
        return;
      }
      var nId1 := vRandom[nRndPos1];
      var nId2 := vRandom[nRndPos2];
      assert nId1 in mapInfo && nId2 in mapInfo;
      SwapPlaces(mapInfo, vRandom, nRndPos1, nRndPos2);
      mapInfo := mapInfo[nId1 := mapInfo[nId1].(nRandomPos := nRndPos2)];
      mapInfo := mapInfo[nId2 := mapInfo[nId2].(nRandomPos := nRndPos1)];
      vRandom := vRandom[nRndPos1 := nId2];
      vRandom := vRandom[nRndPos2 := nId1];
    }

    lemma PlaceOf(m: Infos, v: seq<int>, n: int)
      requires RandomOk(m, v) && n in m
      ensures 0 <= m[n].nRandomPos < |v| && v[m[n].nRandomPos] == n
    {
    }

    lemma LastPlace(m: Infos, v: seq<int>, n: int)
      requires RandomOk(m, v) && v != [] && v[|v| - 1] == n
      ensures n in m && m[n].nRandomPos == |v| - 1
    {
    }

    method MoveToEnd(nId: int)
      requires RandomOk(mapInfo, vRandom) && AddrOk(mapInfo, mapAddr) && CountsOk(mapInfo, nTried, nNew)
      requires nId in mapInfo
      modifies `mapInfo, `vRandom
      ensures RandomOk(mapInfo, vRandom) && AddrOk(mapInfo, mapAddr) && CountsOk(mapInfo, nTried, nNew)
      ensures SameButPlace(old(mapInfo), mapInfo) && vRandom != []
      ensures nId in mapInfo && mapInfo[nId].nRandomPos == |vRandom| - 1
      ensures mapInfo[nId].fInTried == old(mapInfo)[nId].fInTried
    {
      PlaceOf(mapInfo, vRandom, nId);
      hide RandomOk, AddrOk, CountsOk, SameButPlace;
      SwapRandom(mapInfo[nId].nRandomPos, |vRandom| - 1);
      SwapKeepsAddr(old(mapInfo), mapInfo, mapAddr, nTried, nNew);
      PlaceFields(old(mapInfo), mapInfo);
      LastPlace(mapInfo, vRandom, nId);
    }

    /** Deletes an entry that is in no bucket any more: swap to the end, pop, forget. */
    method Erase(nId: int)
      requires RandomOk(mapInfo, vRandom) && AddrOk(mapInfo, mapAddr) && CountsOk(mapInfo, nTried, nNew)
      requires nId in mapInfo && !mapInfo[nId].fInTried
      modifies `mapInfo, `mapAddr, `vRandom, `nNew
      ensures RandomOk(mapInfo, vRandom) && AddrOk(mapInfo, mapAddr) && CountsOk(mapInfo, nTried, nNew)
      ensures SameButPlace(old(mapInfo) - {nId}, mapInfo)
    {
      hide RandomOk, AddrOk, CountsOk, SameButPlace;
      MoveToEnd(nId);
      PlacesWithout(old(mapInfo), mapInfo, nId);
      RandomDelete(mapInfo, vRandom, nId);
      AddrDelete(mapInfo, mapAddr, nId);
      CountsDelete(mapInfo, nId, nTried, nNew);
      vRandom := vRandom[..|vRandom| - 1];
      mapAddr := mapAddr - {mapInfo[nId].addr.ip};
      mapInfo := mapInfo - {nId};
      nNew := nNew - 1;
    }

    /** Takes one reference out of new bucket b; an entry without references is deleted. */
    method DropReference(b: nat, nId: int, ghost ahead: int)
      requires Holds(ahead, -1) && b < NEW_BUCKET_COUNT && nId in vvNew[b] && nId != ahead
      modifies this
      ensures Holds(ahead, -1)
      ensures vvNew == old(vvNew)[b := old(vvNew)[b] - {nId}]
      ensures Dropped(old(mapInfo), mapInfo, nId)
      ensures vvTried == old(vvTried) && nIdCount == old(nIdCount)
    {
      hide AddrOk, RandomOk, TriedOk, CountsOk, NewOk, EntriesOk;
      BucketCount(mapInfo, vvNew, ahead);
      BucketedIsNew(mapInfo, vvNew, ahead, nIdCount, b, nId);
      ghost var m := mapInfo;
      var info := mapInfo[nId];
      info := info.(nRefCount := info.nRefCount - 1);
      DecrementKeeps(mapInfo, vRandom, mapAddr, nTried, nNew, nId);
      mapInfo := mapInfo[nId := info];
      if info.nRefCount == 0 {
        Erase(nId);
      }
      vvNew := vvNew[b := vvNew[b] - {nId}];
      assert Dropped(m, mapInfo, nId);
      DropKeeps(m, mapInfo, vvTried, old(vvNew), ahead, nIdCount, b, nId);
    }

    /** An unknown address gets the next id, the last place and no reference yet. */
    method Create(addr: Address, source: nat) returns (nId: int)
      requires RandomOk(mapInfo, vRandom) && AddrOk(mapInfo, mapAddr) && nIdCount !in mapInfo
      requires addr.addr.ip !in mapAddr
      modifies `nIdCount, `mapInfo, `mapAddr, `vRandom
      ensures nId == old(nIdCount) && nIdCount == old(nIdCount) + 1
      ensures mapInfo == old(mapInfo)[nId := Info(addr.addr, addr.nServices, addr.nTime, source, 0, 0, 0, 0, false,
                                                  |old(vRandom)|)]
      ensures RandomOk(mapInfo, vRandom) && AddrOk(mapInfo, mapAddr)
    {
      nId := nIdCount;
      nIdCount := nIdCount + 1;
      mapInfo := mapInfo[nId := Info(addr.addr, addr.nServices, addr.nTime, source, 0, 0, 0, 0, false, -1)];
      mapAddr := mapAddr[addr.addr.ip := nId];
      mapInfo := mapInfo[nId := mapInfo[nId].(nRandomPos := |vRandom|)];
      vRandom := vRandom + [nId];
      CreateKeeps(old(mapInfo), mapInfo, old(mapAddr), old(vRandom), nId);
    }

    /** Takes one entry out of a new bucket: a terrible one if there is one, else the oldest of up to four sampled
        at random. `ahead` is the entry for which Add_ makes room. */
    method ShrinkNew(b: nat, now: int, ghost ahead: int) returns (r: int, ghost victim: int, ghost sample: set<int>)
      requires Holds(ahead, -1) && b < NEW_BUCKET_COUNT && vvNew[b] != {} && ahead !in vvNew[b]
      modifies this
      ensures Holds(ahead, -1)
      ensures victim in old(vvNew[b]) && vvNew == old(vvNew)[b := old(vvNew[b]) - {victim}]
      ensures Dropped(old(mapInfo), mapInfo, victim)
      ensures vvTried == old(vvTried) && nIdCount == old(nIdCount)
      ensures forall id :: id in old(vvNew[b]) ==> id in old(mapInfo)
      ensures r == if exists id :: id in old(vvNew[b]) && old(mapInfo)[id].IsTerrible(now) then 0 else 1
      ensures r == 0 ==> old(mapInfo)[victim].IsTerrible(now)
      ensures r == 1 ==> victim in sample && sample <= old(vvNew[b]) && |sample| <= 4
      ensures r == 1 ==> forall id :: id in sample ==> old(mapInfo)[victim].nTime <= old(mapInfo)[id].nTime
    {
      hide RandomOk, AddrOk, TriedOk, CountsOk, NewOk, EntriesOk, Dropped, Info.IsTerrible;
      BucketCount(mapInfo, vvNew, ahead);
      forall id | id in vvNew[b] ensures id in mapInfo {
        BucketCount(mapInfo, vvNew, ahead);
        BucketedIsNew(mapInfo, vvNew, ahead, nIdCount, b, id);
      }
      ghost var m := mapInfo;
      victim, sample := -1, {};
      var vNew := vvNew[b];
      var rest := vNew;
      while rest != {}
        invariant mapInfo == m && vvNew == old(vvNew) && vvTried == old(vvTried) && nIdCount == old(nIdCount)
        invariant Holds(ahead, -1) && rest <= vNew
        invariant forall id :: id in vNew && id !in rest ==> !m[id].IsTerrible(now)
        decreases rest
      {
        Inhabited(rest);
        var id :| id in rest;
        if mapInfo[id].IsTerrible(now) {
          victim := id;
          DropReference(b, id, ahead);
          return 0, victim, sample;
        }
        rest := rest - {id};
      }
      var nOldest;
      nOldest, sample := SampleOldest(vNew);
      victim := nOldest;
      DropReference(b, nOldest, ahead);
      r := 1;
    }

    lemma OneMore(a: set<int>, x: int, b: set<int>, y: int)
      requires x !in a && y !in b && |a| == |b|
      ensures |a + {x}| == |b + {y}|
    {
    }

    /** Four random positions, repetitions allowed; the entry with the smallest nTime at any of them. */
    method SampleOldest(vNew: set<int>) returns (nOldest: int, ghost sample: set<int>)
      requires vNew != {} && forall id :: id in vNew ==> id in mapInfo
      ensures nOldest in sample && sample <= vNew && |sample| <= 4
      ensures forall id :: id in sample ==> mapInfo[nOldest].nTime <= mapInfo[id].nTime
    {
      var size := |vNew|;
      ghost var m := mapInfo;
      var n0 := GetRandInt(size);
      var n1 := GetRandInt(size);
      var n2 := GetRandInt(size);
      var n3 := GetRandInt(size);
      nOldest, sample := -1, {};
      var nI, rest, found := 0, vNew, false;
      ghost var picked: set<int>, four: set<int> := {}, {n0, n1, n2, n3};
      while rest != {}
        invariant rest <= vNew && |rest| == size - nI && nI >= 0
        invariant found == (picked != {}) && sample <= vNew && sample !! rest
        invariant if found then nOldest in sample else sample == {}
        invariant forall id :: id in sample ==> found && id in m && nOldest in m && m[nOldest].nTime <= m[id].nTime
        invariant picked <= four && (forall p :: p in picked ==> p < nI)
        invariant n0 < nI ==> n0 in picked
        invariant |sample| == |picked|
        decreases rest
      {
        Inhabited(rest);
        var id :| id in rest;
        assert nI !in picked && id !in sample;
        if nI == n0 || nI == n1 || nI == n2 || nI == n3 {
          if !found || mapInfo[id].nTime < mapInfo[nOldest].nTime {
            nOldest, found := id, true;
          }
          OneMore(sample, id, picked, nI);
          sample, picked := sample + {id}, picked + {nI};
        }
        rest := rest - {id};
        nI := nI + 1;
      }
      Subset(picked, four);
      assert |four| <= 4 by {
        FourAtMost(n0, n1, n2, n3);
      }
    }

    /** Draws the entry for position i from there on. */
    method DrawOne(nKBucket: nat, i: nat, nOldest: int, nOldestPos: int, ghost v: seq<int>, ghost draws: seq<nat>)
      returns (nOldest': int, nOldestPos': int, ghost draws': seq<nat>)
      requires nKBucket < |vvTried| && i == |draws| < |v| == |vvTried[nKBucket]|
      requires forall id :: id in v ==> id in mapInfo
      requires DrawsOk(draws, |v|) && Choose(mapInfo, v, draws) == Choice(vvTried[nKBucket], nOldest, nOldestPos)
      modifies `vvTried
      ensures |vvTried| == |old(vvTried)| && vvTried == old(vvTried)[nKBucket := vvTried[nKBucket]]
      ensures |vvTried[nKBucket]| == |v| && multiset(vvTried[nKBucket]) == multiset(old(vvTried)[nKBucket])
      ensures |draws'| == i + 1 && DrawsOk(draws', |v|)
      ensures Choose(mapInfo, v, draws') == Choice(vvTried[nKBucket], nOldest', nOldestPos')
    {
      hide Choose, DrawsOk;
      var w := vvTried[nKBucket];
      var nRnd := GetRandInt(|w| - i);
      var nPos := nRnd + i;
      var nTemp := w[nPos];
      Swapped(w, i, nPos);
      OneMoreDraw(mapInfo, v, draws, nRnd);
      draws' := draws + [nRnd];
      vvTried := vvTried[nKBucket := vvTried[nKBucket][nPos := vvTried[nKBucket][i]]];
      vvTried := vvTried[nKBucket := vvTried[nKBucket][i := nTemp]];
      nOldest', nOldestPos' := nOldest, nOldestPos;
      if nOldestPos == -1 || mapInfo[nTemp].nLastSuccess < mapInfo[nOldest].nLastSuccess {
        nOldest' := nTemp;
        nOldestPos' := nPos;
      }
    }

    /** Shuffles the first four entries of a tried bucket and returns the position from which the oldest of them was
        drawn. */
    method SelectTried(nKBucket: nat) returns (nOldestPos: int, ghost draws: seq<nat>)
      requires TriedOk(mapInfo, vvTried) && nKBucket < TRIED_BUCKET_COUNT
      modifies `vvTried
      ensures TriedOk(mapInfo, vvTried)
      ensures vvTried == old(vvTried)[nKBucket := vvTried[nKBucket]]
      ensures multiset(vvTried[nKBucket]) == multiset(old(vvTried[nKBucket]))
      ensures if old(vvTried[nKBucket]) == [] then nOldestPos == -1 else 0 <= nOldestPos < |vvTried[nKBucket]|
      ensures var v := old(vvTried[nKBucket]);
              && |draws| == (if |v| < 4 then |v| else 4) && DrawsOk(draws, |v|)
              && (forall id :: id in v ==> id in mapInfo) && Distinct(v)
              && vvTried[nKBucket] == Choose(mapInfo, v, draws).order && nOldestPos == Choose(mapInfo, v, draws).pos
    {
      hide TriedOk, Choose, DrawsOk, Distinct;
      TriedCount(mapInfo, vvTried);
      var nOldest, i := -1, 0;
      nOldestPos, draws := -1, [];
      ghost var v := vvTried[nKBucket];
      var size := |vvTried[nKBucket]|;
      forall id | id in v ensures id in mapInfo {
        TriedMember(mapInfo, vvTried, nKBucket, id);
      }
      OnceInBucket(mapInfo, vvTried, nKBucket);
      NoDraws(mapInfo, v);
      while i < TRIED_ENTRIES_INSPECT_ON_EVICT && i < size
        invariant 0 <= i == |draws| <= size == |v| && i <= 4
        invariant |vvTried| == TRIED_BUCKET_COUNT && |vvTried[nKBucket]| == size
        invariant vvTried == old(vvTried)[nKBucket := vvTried[nKBucket]]
        invariant multiset(vvTried[nKBucket]) == multiset(v)
        invariant DrawsOk(draws, size) && Choose(mapInfo, v, draws) == Choice(vvTried[nKBucket], nOldest, nOldestPos)
      {
        nOldest, nOldestPos, draws := DrawOne(nKBucket, i, nOldest, nOldestPos, v, draws);
        i := i + 1;
      }
      Permuted(mapInfo, old(vvTried), nKBucket, vvTried[nKBucket]);
    }

    /** Out of every new bucket; the reference count counts down to the zero the source asserts. */
    method LeaveNew(nId: int)
      requires NewOk(mapInfo, vvNew, -1) && nId in mapInfo
      modifies `mapInfo, `vvNew
      ensures |vvNew| == |old(vvNew)| && forall b :: 0 <= b < |vvNew| ==> vvNew[b] == old(vvNew)[b] - {nId}
      ensures mapInfo == old(mapInfo)[nId := old(mapInfo)[nId].(nRefCount := 0)]
    {
      hide NewOk, InBuckets;
      ghost var m, vv := mapInfo, vvNew;
      assert InBuckets(vv, nId) == m[nId].nRefCount by {
        CountOf(m, vv, nId);
      }
      var it := 0;
      while it < |vvNew|
        invariant 0 <= it <= |vvNew| == |vv|
        invariant forall b :: 0 <= b < |vv| ==> vvNew[b] == if b < it then vv[b] - {nId} else vv[b]
        invariant mapInfo == m[nId := m[nId].(nRefCount := InBuckets(vvNew, nId))]
      {
        InBucketsUpdate(vvNew, it, vvNew[it] - {nId}, nId);
        if nId in vvNew[it] {
          vvNew := vvNew[it := vvNew[it] - {nId}];
          mapInfo := mapInfo[nId := mapInfo[nId].(nRefCount := mapInfo[nId].nRefCount - 1)];
        }
        it := it + 1;
      }
      InNoBucket(vvNew, nId);
    }

    /** An entry evicted from the tried ones joins its own new bucket, or when that is full the one from which the
        other entry came. */
    ghost function PutBack(vv: seq<set<int>>, n: int, ip: nat, source: nat, nOrigin: nat): seq<set<int>>
      requires |vv| == NEW_BUCKET_COUNT && nOrigin < NEW_BUCKET_COUNT
    {
      var home := newHash(ip, source) % 256;
      if |vv[home]| < NEW_BUCKET_SIZE then vv[home := vv[home] + {n}] else vv[nOrigin := vv[nOrigin] + {n}]
    }

    /** Moves an entry from the new buckets to its tried bucket. If that is full, one of its entries goes back to a
        new bucket: its own, or the one nId came from. */
    method MakeTried(nId: int, nOrigin: nat) returns (ghost evicted: int, ghost draws: seq<nat>)
      requires Inv() && nOrigin < NEW_BUCKET_COUNT && nId in vvNew[nOrigin]
      requires nId in mapInfo && mapInfo[nId].nLastSuccess > 0
      modifies this
      ensures Inv() && Moved(old(mapInfo), mapInfo, nId, evicted)
      ensures vRandom == old(vRandom) && mapAddr == old(mapAddr)
      ensures var k := triedHash(mapInfo[nId].addr) % 64;
              |old(vvTried)| == TRIED_BUCKET_COUNT && |vvTried| == TRIED_BUCKET_COUNT &&
              vvTried == old(vvTried)[k := vvTried[k]] &&
              if |old(vvTried)[k]| < TRIED_BUCKET_SIZE
              then evicted == -1 && vvTried[k] == old(vvTried)[k] + [nId]
              else evicted in old(vvTried)[k] && Evicts(old(mapInfo), old(vvTried)[k], draws, evicted) &&
                   multiset(vvTried[k]) == multiset(old(vvTried)[k]) - multiset{evicted} + multiset{nId}
      ensures |vvNew| == |old(vvNew)| == NEW_BUCKET_COUNT && (evicted != -1 ==> evicted in old(mapInfo))
      ensures var left := Without(old(vvNew), nId);
              vvNew == if evicted == -1 then left
                       else var e := old(mapInfo)[evicted]; PutBack(left, evicted, e.addr.ip, e.source, nOrigin)
    {
      hide RandomOk, AddrOk, CountsOk, NewOk, TriedOk, Evicts, PutBack;
      ghost var m, vvOld := mapInfo, vvNew;
      BucketCount(m, vvNew, -1);
      BucketedIsNew(m, vvNew, -1, nIdCount, nOrigin, nId);
      LeaveNew(nId);
      ghost var m1 := m[nId := m[nId].(fInTried := true, nRefCount := 0)];
      assert m1.Keys == m.Keys;
      MovedNew(m, m1, vvOld, vvNew, nId);
      nNew := nNew - 1;
      var nKBucket := TriedBucket(mapInfo[nId].addr);
      TriedCount(m, vvTried);
      if |vvTried[nKBucket]| < TRIED_BUCKET_SIZE {
        evicted, draws := -1, [];
        vvTried := vvTried[nKBucket := vvTried[nKBucket] + [nId]];
        nTried := nTried + 1;
        mapInfo := mapInfo[nId := mapInfo[nId].(fInTried := true)];
        assert mapInfo == m1;
        PlaceTried(m, m1, old(vvTried), nKBucket, nId);
        MovedKeeps(m, m1, nId, -1, mapAddr, vRandom, nIdCount);
        MovedCounts(m, m1, nId, -1, old(nTried), old(nNew));
        return;
      }
      assert vvNew == Without(vvOld, nId);
      evicted, draws := Displace(m, vvOld, nId, nOrigin, nKBucket);
    }

    /** To its own new bucket, or when that is full to the given one. */
    method ReturnToNew(nOld: int, nOrigin: nat) returns (ghost to: nat)
      requires nOld in mapInfo && |vvNew| == NEW_BUCKET_COUNT && nOrigin < NEW_BUCKET_COUNT
      modifies `vvNew
      ensures vvNew == PutBack(old(vvNew), nOld, mapInfo[nOld].addr.ip, mapInfo[nOld].source, nOrigin)
      ensures to < |old(vvNew)| && vvNew == old(vvNew)[to := old(vvNew)[to] + {nOld}]
      ensures |old(vvNew)[to]| < NEW_BUCKET_SIZE || to == nOrigin
    {
      var nUBucket := NewBucket(mapInfo[nOld].addr.ip, mapInfo[nOld].source);
      if |vvNew[nUBucket]| < NEW_BUCKET_SIZE {
        to := nUBucket;
        vvNew := vvNew[nUBucket := vvNew[nUBucket] + {nOld}];
      } else {
        to := nOrigin;
        vvNew := vvNew[nOrigin := vvNew[nOrigin] + {nOld}];
      }
    }

    /** The second half of MakeTried: the tried bucket is full. `m` and `vvOld` are the table before the entry left
        the new buckets. */
    method Displace(ghost m: Infos, ghost vvOld: seq<set<int>>, nId: int, nOrigin: nat, nKBucket: nat)
      returns (ghost evicted: int, ghost draws: seq<nat>)
      requires RandomOk(m, vRandom) && AddrOk(m, mapAddr) && TriedOk(m, vvTried) && EntriesOk(m, nIdCount, -1)
      requires NewOk(m, vvOld, -1) && CountsOk(m, nTried, nNew + 1) && 0 <= nIdCount
      requires nId in m && m[nId].nLastSuccess > 0 && !m[nId].fInTried
      requires mapInfo == m[nId := m[nId].(nRefCount := 0)]
      requires |vvNew| == |vvOld| && forall b :: 0 <= b < |vvNew| ==> vvNew[b] == vvOld[b] - {nId}
      requires nOrigin < NEW_BUCKET_COUNT == |vvOld| && nId in vvOld[nOrigin]
      requires nKBucket < TRIED_BUCKET_COUNT == |vvTried| && |vvTried[nKBucket]| >= TRIED_BUCKET_SIZE
      modifies this
      ensures Inv() && Moved(m, mapInfo, nId, evicted)
      ensures vRandom == old(vRandom) && mapAddr == old(mapAddr)
      ensures |vvTried| == TRIED_BUCKET_COUNT && vvTried == old(vvTried)[nKBucket := vvTried[nKBucket]]
      ensures evicted in old(vvTried)[nKBucket] && Evicts(m, old(vvTried)[nKBucket], draws, evicted)
      ensures multiset(vvTried[nKBucket]) == multiset(old(vvTried)[nKBucket]) - multiset{evicted} + multiset{nId}
      ensures |old(vvNew)| == |vvNew| == NEW_BUCKET_COUNT && evicted in m
      ensures vvNew == PutBack(old(vvNew), evicted, m[evicted].addr.ip, m[evicted].source, nOrigin)
    {
      hide RandomOk, AddrOk, CountsOk, NewOk, TriedOk, Moved, EntriesOk, Evicts, PutBack;
      var nPos;
      nPos, draws := PickEvicted(m, nKBucket);
      ghost var vv, vvSel := vvNew, vvTried;
      var nOld := vvTried[nKBucket][nPos];
      evicted := nOld;
      Replaced(vvTried[nKBucket], nPos, nId);
      mapInfo := mapInfo[nOld := mapInfo[nOld].(fInTried := false, nRefCount := 1)];
      ghost var to := ReturnToNew(nOld, nOrigin);
      nNew := nNew + 1;
      vvTried := vvTried[nKBucket := vvTried[nKBucket][nPos := nId]];
      mapInfo := mapInfo[nId := mapInfo[nId].(fInTried := true)];
      ghost var m2 := m[nId := m[nId].(fInTried := true, nRefCount := 0)]
                       [nOld := m[nOld].(fInTried := false, nRefCount := 1)];
      assert mapInfo == m2;
      DisplacedIndexes(m, m2, nId, nOld, mapAddr, vRandom, vvSel, nKBucket, nPos, nIdCount, nTried, nNew);
      DisplacedNew(m, m2, vvOld, vv, nId, nOld, nOrigin, to);
    }

    method PickEvicted(ghost m: Infos, nKBucket: nat) returns (nPos: int, ghost draws: seq<nat>)
      requires TriedOk(m, vvTried) && EntriesOk(m, nIdCount, -1)
      requires mapInfo.Keys == m.Keys && forall n :: n in m ==> mapInfo[n].fInTried == m[n].fInTried
      requires forall n :: n in m ==> mapInfo[n].nLastSuccess == m[n].nLastSuccess
      requires nKBucket < TRIED_BUCKET_COUNT == |vvTried| && vvTried[nKBucket] != []
      modifies `vvTried
      ensures TriedOk(m, vvTried) && |vvTried| == TRIED_BUCKET_COUNT
      ensures vvTried == old(vvTried)[nKBucket := vvTried[nKBucket]]
      ensures multiset(vvTried[nKBucket]) == multiset(old(vvTried[nKBucket]))
      ensures 0 <= nPos < |vvTried[nKBucket]|
      ensures Evicts(m, old(vvTried)[nKBucket], draws, vvTried[nKBucket][nPos])
      ensures var id := vvTried[nKBucket][nPos];
              id in old(vvTried)[nKBucket] && id in m && m[id].fInTried && id >= 0 && m[id].nRefCount == 0
    {
      hide TriedOk, EntriesOk;
      SameTried(m, mapInfo, vvTried);
      nPos, draws := SelectTried(nKBucket);
      SameChoice(mapInfo, m, old(vvTried)[nKBucket], draws);
      SameTried(mapInfo, m, vvTried);
      TriedCount(m, vvTried);
      var nOld := vvTried[nKBucket][nPos];
      assert nOld in multiset(vvTried[nKBucket]);
      TriedMember(m, vvTried, nKBucket, nOld);
      TriedEntry(m, nIdCount, nOld);
    }

    /** A connection to addr worked at nTime. A known address with the same port ends up tried; the source's "something
        bad happened" branch, no bucket found, is not reached. */
    method Good_(addr: Service, nTime: int) returns (ghost evicted: int, ghost nOrigin: nat)
      requires Inv() && nTime > 0
      modifies this
      ensures Inv() && mapAddr == old(mapAddr) && vRandom == old(vRandom)
      ensures if addr.ip in old(mapAddr) && old(mapInfo)[old(mapAddr)[addr.ip]].addr == addr
              then var n := old(mapAddr)[addr.ip];
                   && mapInfo[n].fInTried
                   && Moved(Praised(old(mapInfo), n, nTime), mapInfo, n, evicted)
                   && (old(mapInfo)[n].fInTried ==> evicted == -1 && vvNew == old(vvNew) && vvTried == old(vvTried))
                   && (!old(mapInfo)[n].fInTried ==>
                         && |old(vvNew)| == NEW_BUCKET_COUNT && nOrigin < NEW_BUCKET_COUNT && n in old(vvNew)[nOrigin]
                         && (evicted != -1 ==> evicted in old(mapInfo))
                         && var left := Without(old(vvNew), n);
                            vvNew == if evicted == -1 then left
                                     else
                                       var e := old(mapInfo)[evicted];
                                       PutBack(left, evicted, e.addr.ip, e.source, nOrigin))
              else mapInfo == old(mapInfo) && vvNew == old(vvNew) && vvTried == old(vvTried)
    {
      hide RandomOk, CountsOk, NewOk, TriedOk, PutBack;
      evicted, nOrigin := -1, 0;
      var nId := Find(addr.ip);
      if nId == -1 {
        return;
      }
      if mapInfo[nId].addr != addr {
        return;
      }
      assert nId == mapAddr[addr.ip];
      ghost var m := mapInfo;
      mapInfo := mapInfo[nId := mapInfo[nId].(nLastSuccess := nTime, nLastTry := nTime, nTime := nTime,
                                              nAttempts := 0)];
      assert Touched(m, mapInfo, nId);
      assert IndexesOk(m, mapAddr, vvTried, vvNew, -1, nTried, nNew);
      TouchKeeps(m, mapInfo, nId, mapAddr, vRandom, vvTried, vvNew, nIdCount, nTried, nNew);
      assert mapInfo == Praised(m, nId, nTime);
      if mapInfo[nId].fInTried {
        assert EntryOk(m[nId], false);
        return;
      }
      var nUBucket := FindBucket(nId);
      BucketCount(mapInfo, vvNew, -1);
      nOrigin := nUBucket;
      ghost var draws;
      evicted, draws := MakeTried(nId, nUBucket);
    }

    /** Walks all new buckets from a random one on. The entry is referenced, so one is found. */
    method FindBucket(nId: int) returns (nUBucket: int)
      requires NewOk(mapInfo, vvNew, -1) && nId in mapInfo && mapInfo[nId].nRefCount > 0
      ensures 0 <= nUBucket < NEW_BUCKET_COUNT && nId in vvNew[nUBucket]
    {
      InNoBucket(vvNew, nId);
      assert InBuckets(vvNew, nId) > 0;
      ghost var w :| 0 <= w < |vvNew| && nId in vvNew[w];
      var size := |vvNew|;
      var nRnd := GetRandInt(size);
      ghost var k := if w >= nRnd then w - nRnd else w - nRnd + size;
      assert (k + nRnd) % size == w;
      var n := 0;
      while n < size
        invariant 0 <= n <= k
      {
        var nB := (n + nRnd) % size;
        if nId in vvNew[nB] {
          return nB;
        }
        n := n + 1;
      }
      assert false;
    }

    /** One more reference, from new bucket b, unless b has it already; a full bucket makes room first. */
    method Refer(nId: int, b: nat, now: int) returns (ghost victim: int)
      requires Holds(-1, nId) && nId in mapInfo && b < NEW_BUCKET_COUNT == |vvNew|
      requires !mapInfo[nId].fInTried && mapInfo[nId].nRefCount < NEW_BUCKETS_PER_ADDRESS
      modifies this
      ensures Inv() && vvTried == old(vvTried) && nIdCount == old(nIdCount)
      ensures nId in old(vvNew)[b] ==> vvNew == old(vvNew) && mapInfo == old(mapInfo) && victim == -1
      ensures nId !in old(vvNew)[b] ==>
                var m := old(mapInfo)[nId := old(mapInfo)[nId].(nRefCount := old(mapInfo)[nId].nRefCount + 1)];
                if |old(vvNew)[b]| < NEW_BUCKET_SIZE
                then vvNew == old(vvNew)[b := old(vvNew)[b] + {nId}] && mapInfo == m && victim == -1
                else victim in old(vvNew)[b] && Dropped(m, mapInfo, victim) &&
                     vvNew == old(vvNew)[b := old(vvNew)[b] - {victim} + {nId}]
    {
      hide RandomOk, AddrOk, CountsOk, NewOk, TriedOk, Dropped;
      victim := -1;
      var vNew := vvNew[b];
      CapOf(mapInfo, vvNew, -1, b);
      if nId in vNew {
        CountOf(mapInfo, vvNew, nId);
        InNoBucket(vvNew, nId);
        return;
      }
      ghost var m := mapInfo;
      mapInfo := mapInfo[nId := mapInfo[nId].(nRefCount := mapInfo[nId].nRefCount + 1)];
      CountAhead(m, mapInfo, nId, mapAddr, vRandom, vvTried, vvNew, nTried, nNew);
      if |vNew| == NEW_BUCKET_SIZE {
        ghost var r, sample;
        r, victim, sample := ShrinkNew(b, now, nId);
        assert |vNew - {victim}| < NEW_BUCKET_SIZE;
        DroppedOthers(m[nId := m[nId].(nRefCount := m[nId].nRefCount + 1)], mapInfo, victim, nId);
      }
      AddReference(mapInfo, vvNew, b, nId);
      vvNew := vvNew[b := vvNew[b] + {nId}];
    }

    /** An address a peer told us about. The result says whether it was unknown; nId is the entry that was offered a
        place in its new bucket, -1 if none was. */
    method Add_(addr: Address, source: nat, nTimePenalty: int, now: int, routable: bool, dice: nat)
      returns (fNew: bool, ghost nId: int, ghost victim: int)
      requires Inv()
      modifies this
      ensures Inv() && vvTried == old(vvTried)
      ensures fNew == (routable && addr.addr.ip !in old(mapAddr))
      ensures fNew ==> nId == old(nIdCount)
      ensures !fNew ==> nId == -1 || (addr.addr.ip in old(mapAddr) && nId == old(mapAddr)[addr.addr.ip])
      ensures nId == -1 ==> vvNew == old(vvNew) && mapAddr == old(mapAddr) && vRandom == old(vRandom)
      ensures !routable ==> nId == -1 && mapInfo == old(mapInfo)
      ensures routable ==> addr.addr.ip in old(mapAddr) ==> old(mapAddr)[addr.addr.ip] in old(mapInfo)
      ensures routable && nId == -1 ==>
                && addr.addr.ip in old(mapAddr)
                && mapInfo == Offered(old(mapInfo), old(mapAddr), old(nIdCount), |old(vRandom)|, addr, source,
                                      nTimePenalty, now)
      ensures routable && addr.addr.ip in old(mapAddr) ==>
                var info := Refreshed(old(mapInfo)[old(mapAddr)[addr.addr.ip]], addr, nTimePenalty, now);
                nId != -1 <==> WantsMore(info, addr) && dice % Doubled(info.nRefCount) == 0
      ensures nId != -1 ==>
                var b := newHash(addr.addr.ip, source) % 256;
                var m := Offered(old(mapInfo), old(mapAddr), old(nIdCount), |old(vRandom)|, addr, source,
                                 nTimePenalty, now);
                && nId in m && (fNew || WantsMore(m[nId], addr)) && |old(vvNew)| == NEW_BUCKET_COUNT
                && if nId in old(vvNew)[b] then vvNew == old(vvNew) && mapInfo == m
                   else
                     var m1 := m[nId := m[nId].(nRefCount := m[nId].nRefCount + 1)];
                     if |old(vvNew)[b]| < NEW_BUCKET_SIZE
                     then vvNew == old(vvNew)[b := old(vvNew)[b] + {nId}] && mapInfo == m1
                     else victim in old(vvNew)[b] && Dropped(m1, mapInfo, victim) &&
                          vvNew == old(vvNew)[b := old(vvNew)[b] - {victim} + {nId}]
    {
      hide RandomOk, CountsOk, NewOk, TriedOk, EntryOk, WantsMore, Dropped, Refreshed;
      fNew, nId, victim := false, -1, -1;
      if !routable {
        return;
      }
      BucketCount(mapInfo, vvNew, -1);
      var id := Find(addr.addr.ip);
      if id != -1 {
        assert id == mapAddr[addr.addr.ip];
        var wanted := Refresh(id, addr, nTimePenalty, now, dice);
        if !wanted {
          return;
        }
        Loosen(mapInfo, nIdCount, id);
      } else {
        id := Enter(addr, source, nTimePenalty);
        fNew := true;
      }
      nId := id;
      var nUBucket := NewBucket(mapInfo[id].addr.ip, source);
      victim := Refer(id, nUBucket, now);
    }

    /** An unknown address becomes a new entry, for the moment without a bucket. */
    method Enter(addr: Address, source: nat, nTimePenalty: int) returns (id: int)
      requires Inv() && addr.addr.ip !in mapAddr
      modifies this
      ensures Holds(-1, id) && id == old(nIdCount) && vvTried == old(vvTried) && vvNew == old(vvNew)
      ensures mapInfo == old(mapInfo)[id := Info(addr.addr, addr.nServices, Max0(addr.nTime - nTimePenalty), source,
                                                 0, 0, 0, 0, false, |old(vRandom)|)]
    {
      hide RandomOk, AddrOk, CountsOk, NewOk, TriedOk;
      ghost var m := mapInfo;
      id := Create(addr, source);
      PlaceOnly(m, mapInfo, id, mapInfo[id].(nTime := Max0(mapInfo[id].nTime - nTimePenalty)), mapAddr, vRandom);
      mapInfo := mapInfo[id := mapInfo[id].(nTime := Max0(mapInfo[id].nTime - nTimePenalty))];
      nNew := nNew + 1;
      NewEntryKeeps(m, mapInfo, id, vvTried, vvNew, old(nIdCount), nTried, old(nNew));
    }

    /** What a repeated announcement does to a known entry; the answer is whether it may get another bucket. With r
        references already, only one time in 2^r; `dice` is the random number that decides. */
    method Refresh(id: int, addr: Address, nTimePenalty: int, now: int, dice: nat) returns (wanted: bool)
      requires Inv() && id in mapInfo
      modifies `mapInfo
      ensures Inv()
      ensures mapInfo == old(mapInfo)[id := Refreshed(old(mapInfo)[id], addr, nTimePenalty, now)]
      ensures wanted <==> WantsMore(mapInfo[id], addr) && dice % Doubled(mapInfo[id].nRefCount) == 0
      ensures wanted ==> !mapInfo[id].fInTried && mapInfo[id].nRefCount < NEW_BUCKETS_PER_ADDRESS
    {
      hide RandomOk, AddrOk, CountsOk, NewOk, TriedOk, Refreshed;
      Update(id, addr, nTimePenalty, now);
      if addr.nTime == 0 || (mapInfo[id].nTime != 0 && addr.nTime <= mapInfo[id].nTime) {
        return false;
      }
      if mapInfo[id].fInTried {
        return false;
      }
      if mapInfo[id].nRefCount == NEW_BUCKETS_PER_ADDRESS {
        return false;
      }
      assert EntryOk(mapInfo[id], false);
      var nFactor := 1;
      var n := 0;
      while n < mapInfo[id].nRefCount
        invariant 0 <= n <= mapInfo[id].nRefCount && nFactor == Doubled(n)
      {
        nFactor := nFactor * 2;
        n := n + 1;
      }
      if nFactor > 1 {
        if dice % nFactor != 0 {
          return false;
        }
      }
      return true;
    }

    /** The times and services of a known entry follow the announcement. */
    method Update(id: int, addr: Address, nTimePenalty: int, now: int)
      requires Inv() && id in mapInfo
      modifies `mapInfo
      ensures Inv()
      ensures mapInfo == old(mapInfo)[id := Refreshed(old(mapInfo)[id], addr, nTimePenalty, now)]
    {
      hide RandomOk, AddrOk, CountsOk, NewOk, TriedOk;
      ghost var m := mapInfo;
      var fCurrentlyOnline := now - addr.nTime < 24 * 60 * 60;
      var nUpdateInterval := if fCurrentlyOnline then 60 * 60 else 24 * 60 * 60;
      var info := mapInfo[id];
      if addr.nTime != 0 && (info.nTime == 0 || info.nTime < addr.nTime - nUpdateInterval - nTimePenalty) {
        info := info.(nTime := Max0(addr.nTime - nTimePenalty));
      }
      info := info.(nServices := info.nServices + addr.nServices);
      mapInfo := mapInfo[id := info];
      assert info == Refreshed(m[id], addr, nTimePenalty, now);
      assert EntryOk(m[id], false);
      assert Touched(m, mapInfo, id);
      assert IndexesOk(m, mapAddr, vvTried, vvNew, -1, nTried, nNew);
      TouchKeeps(m, mapInfo, id, mapAddr, vRandom, vvTried, vvNew, nIdCount, nTried, nNew);
    }

    method Attempt_(addr: Service, nTime: int)
      requires Inv() && nTime >= 0
      modifies `mapInfo
      ensures Inv()
      ensures mapInfo ==
              if addr.ip in mapAddr && old(mapInfo)[mapAddr[addr.ip]].addr == addr
              then var n := mapAddr[addr.ip];
                   old(mapInfo)[n := old(mapInfo)[n].(nLastTry := nTime, nAttempts := old(mapInfo)[n].nAttempts + 1)]
              else old(mapInfo)
    {
      hide RandomOk, CountsOk, NewOk, TriedOk;
      var nId := Find(addr.ip);
      if nId == -1 || mapInfo[nId].addr != addr {
        return;
      }
      assert nId == mapAddr[addr.ip];
      ghost var m := mapInfo;
      assert EntryOk(m[nId], false);
      mapInfo := mapInfo[nId := mapInfo[nId].(nLastTry := nTime, nAttempts := mapInfo[nId].nAttempts + 1)];
      assert Touched(m, mapInfo, nId);
      assert IndexesOk(m, mapAddr, vvTried, vvNew, -1, nTried, nNew);
      TouchKeeps(m, mapInfo, nId, mapAddr, vRandom, vvTried, vvNew, nIdCount, nTried, nNew);
    }

    method Connected_(addr: Service, nTime: int)
      requires Inv() && nTime >= 0
      modifies `mapInfo
      ensures Inv()
      ensures mapInfo ==
              if addr.ip in mapAddr && old(mapInfo)[mapAddr[addr.ip]].addr == addr
                 && nTime - old(mapInfo)[mapAddr[addr.ip]].nTime > 20 * 60
              then var n := mapAddr[addr.ip];
                   old(mapInfo)[n := old(mapInfo)[n].(nTime := nTime)]
              else old(mapInfo)
    {
      hide RandomOk, CountsOk, NewOk, TriedOk;
      var nId := Find(addr.ip);
      if nId == -1 || mapInfo[nId].addr != addr {
        return;
      }
      assert nId == mapAddr[addr.ip];
      var nUpdateInterval := 20 * 60;
      if nTime - mapInfo[nId].nTime > nUpdateInterval {
        ghost var m := mapInfo;
        assert EntryOk(m[nId], false);
        mapInfo := mapInfo[nId := mapInfo[nId].(nTime := nTime)];
        assert Touched(m, mapInfo, nId);
        assert IndexesOk(m, mapAddr, vvTried, vvNew, -1, nTried, nNew);
        TouchKeeps(m, mapInfo, nId, mapAddr, vRandom, vvTried, vvNew, nIdCount, nTried, nNew);
      }
    }

    /** Up to 23 percent and at most 2500 known addresses, each of them once. */
    method GetAddr_() returns (vAddr: seq<Address>)
      requires Inv()
      modifies `mapInfo, `vRandom
      ensures Inv() && SameButPlace(old(mapInfo), mapInfo)
      ensures var share := 23 * |vRandom| / 100;
              |vAddr| == if share > 2500 then 2500 else share
      ensures |vAddr| <= |vRandom| && forall i :: 0 <= i < |vAddr| ==>
                vRandom[i] in old(mapInfo) && old(mapInfo)[vRandom[i]].nTime >= 0 &&
                vAddr[i] == AddressOf(old(mapInfo)[vRandom[i]])
      ensures forall i, j :: 0 <= i < j < |vAddr| ==> vAddr[i].addr.ip != vAddr[j].addr.ip
    {
      hide AddrOk, CountsOk, NewOk, TriedOk, RandomOk, EntriesOk, SameButPlace, AnswersOk;
      ghost var m := mapInfo;
      SamePlaces(m);
      NoAnswers(m, vRandom);
      var nNodes := GETADDR_MAX_PCT * |vRandom| / 100;
      if nNodes > GETADDR_MAX {
        nNodes := GETADDR_MAX;
      }
      vAddr := [];
      var n := 0;
      while n < nNodes
        invariant 0 <= n <= nNodes == |vAddr| + nNodes - n
        invariant RandomOk(mapInfo, vRandom) && SameButPlace(m, mapInfo) && |vRandom| == |old(vRandom)|
        invariant AnswersOk(m, vRandom, vAddr)
      {
        var nRndPos := GetRandInt(|vRandom| - n);
        nRndPos := nRndPos + n;
        ghost var before, places := mapInfo, vRandom;
        SwapRandom(n, nRndPos);
        PlacesCompose(m, before, mapInfo);
        var id := vRandom[n];
        Answered(m, mapInfo, vRandom, n, nIdCount);
        OneMoreAnswer(m, places, vRandom, vAddr, AddressOf(mapInfo[id]));
        vAddr := vAddr + [AddressOf(mapInfo[id])];
        n := n + 1;
      }
      DistinctAddresses(m, mapInfo, vRandom, vAddr, mapAddr);
      PlacesKeep(m, mapInfo, mapAddr, vvTried, vvNew, nIdCount, nTried, nNew);
    }
  }

  /** 2^n */
  function Doubled(n: int): (p: nat)
    ensures p >= 1 && (n > 0 ==> p >= 2)
  {
    if n <= 0 then 1 else 2 * Doubled(n - 1)
  }

  /** A known entry after another announcement of its address. */
  function Refreshed(info: Info, addr: Address, nTimePenalty: int, now: int): (r: Info) {
    var interval := if now - addr.nTime < 24 * 60 * 60 then 60 * 60 else 24 * 60 * 60;
    var stale := addr.nTime != 0 && (info.nTime == 0 || info.nTime < addr.nTime - interval - nTimePenalty);
    info.(nTime := if stale then Max0(addr.nTime - nTimePenalty) else info.nTime,
          nServices := info.nServices + addr.nServices)
  }

  /** An announcement moves an entry's time forward when it is newer by more than the penalty and an hour, a day if it
      is itself a day old; the new time is the announced one less the penalty. No announcement makes an entry older. */
  lemma RefreshedIs(info: Info, addr: Address, nTimePenalty: nat, now: int)
    requires info.nTime > 0 && addr.nTime > 0
    ensures var r := Refreshed(info, addr, nTimePenalty, now);
            var margin := if now - addr.nTime < 86_400 then 3600 else 86_400;
            && r.nTime == (if addr.nTime - nTimePenalty > info.nTime + margin then addr.nTime - nTimePenalty
                           else info.nTime)
            && r.nTime >= info.nTime && r == info.(nTime := r.nTime, nServices := info.nServices + addr.nServices)
  {
  }

  /** The announcement is news, and the entry may be in one more new bucket. */
  predicate WantsMore(info: Info, addr: Address) {
    && addr.nTime != 0 && (info.nTime == 0 || addr.nTime > info.nTime)
    && !info.fInTried && info.nRefCount < NEW_BUCKETS_PER_ADDRESS
  }

  /** The entries once an announced address has been looked up or created, before it is offered a bucket. */
  function Offered(m: Infos, mapAddr: map<nat, int>, nextId: int, place: nat, addr: Address, source: nat,
                   nTimePenalty: int, now: int): Infos
    requires addr.addr.ip in mapAddr ==> mapAddr[addr.addr.ip] in m
  {
    if addr.addr.ip in mapAddr then
      var n := mapAddr[addr.addr.ip];
      m[n := Refreshed(m[n], addr, nTimePenalty, now)]
    else
      m[nextId := Info(addr.addr, addr.nServices, Max0(addr.nTime - nTimePenalty), source, 0, 0, 0, 0, false, place)]
  }

  lemma CountAhead(m: Infos, m': Infos, n: int, mapAddr: map<nat, int>, v: seq<int>, vvTried: seq<seq<int>>,
                   vvNew: seq<set<int>>, nTried: int, nNew: int)
    requires RandomOk(m, v) && AddrOk(m, mapAddr) && TriedOk(m, vvTried) && NewOk(m, vvNew, -1)
    requires CountsOk(m, nTried, nNew) && n in m && n >= 0
    requires m' == m[n := m[n].(nRefCount := m[n].nRefCount + 1)]
    ensures RandomOk(m', v) && AddrOk(m', mapAddr) && TriedOk(m', vvTried) && NewOk(m', vvNew, n)
    ensures CountsOk(m', nTried, nNew)
  {
    assert m'.Keys == m.Keys;
    SameFlags(m, m');
    SameTried(m, m', vvTried);
  }

  lemma Loosen(m: Infos, nIdCount: int, n: int)
    requires EntriesOk(m, nIdCount, -1)
    ensures EntriesOk(m, nIdCount, n)
  {
    forall k | k in m ensures 0 <= k < nIdCount && EntryOk(m[k], k == n) {
      assert EntryOk(m[k], k == -1);
    }
  }

  /** The places and the addresses do not depend on an entry's times. */
  lemma PlaceOnly(m: Infos, m1: Infos, n: int, info: Info, mapAddr: map<nat, int>, v: seq<int>)
    requires n in m1 && info == m1[n].(nTime := info.nTime)
    requires RandomOk(m1, v) && AddrOk(m1, mapAddr)
    ensures RandomOk(m1[n := info], v) && AddrOk(m1[n := info], mapAddr)
  {
    assert m1[n := info].Keys == m1.Keys;
  }

  /** A fresh entry is new, loose, and in no bucket. */
  lemma NewEntryKeeps(m: Infos, m': Infos, n: int, vvTried: seq<seq<int>>, vvNew: seq<set<int>>, nIdCount: int,
                      nTried: int, nNew: int)
    requires n in m' && n !in m && n == nIdCount >= 0 && m' == m[n := m'[n]]
    requires !m'[n].fInTried && m'[n].nRefCount == 0 && EntryOk(m'[n], true) && EntriesOk(m, nIdCount, -1)
    requires TriedOk(m, vvTried) && NewOk(m, vvNew, -1) && CountsOk(m, nTried, nNew)
    ensures TriedOk(m', vvTried) && NewOk(m', vvNew, -1) && CountsOk(m', nTried, nNew + 1)
    ensures EntriesOk(m', nIdCount + 1, n)
  {
    hide EntryOk, TriedOk, NewOk, CountsOk;
    assert m'.Keys == m.Keys + {n};
    assert CountsOk(m', nTried, nNew + 1) by {
      NewEntryCounts(m, m', n, nTried, nNew);
    }
    NewEntryBuckets(m, m', n, vvTried, vvNew);
  }

  lemma NewEntryBuckets(m: Infos, m': Infos, n: int, vvTried: seq<seq<int>>, vvNew: seq<set<int>>)
    requires n in m' && n !in m && m' == m[n := m'[n]] && !m'[n].fInTried && m'[n].nRefCount == 0
    requires TriedOk(m, vvTried) && NewOk(m, vvNew, -1)
    ensures TriedOk(m', vvTried) && NewOk(m', vvNew, -1)
  {
    assert forall k :: Refs(m', k) == Refs(m, k);
    assert forall k :: (k in m' && m'[k].fInTried) <==> (k in m && m[k].fInTried);
  }

  lemma NewEntryCounts(m: Infos, m': Infos, n: int, nTried: int, nNew: int)
    requires n in m' && n !in m && m' == m[n := m'[n]] && !m'[n].fInTried && CountsOk(m, nTried, nNew)
    ensures CountsOk(m', nTried, nNew + 1)
  {
    forall k ensures k in TriedIds(m') <==> k in TriedIds(m)
             ensures k in NewIds(m') <==> k in NewIds(m) + {n}
    {
    }
    assert TriedIds(m') == TriedIds(m) && NewIds(m') == NewIds(m) + {n} && n !in NewIds(m);
    hide TriedIds, NewIds;
  }

  function Praised(m: Infos, n: int, nTime: int): Infos
    requires n in m
  {
    m[n := m[n].(nLastSuccess := nTime, nLastTry := nTime, nTime := nTime, nAttempts := 0)]
  }

  lemma CreateKeeps(m: Infos, m': Infos, mapAddr: map<nat, int>, v: seq<int>, nId: int)
    requires RandomOk(m, v) && AddrOk(m, mapAddr) && nId !in m && nId in m'
    requires m' == m[nId := m'[nId]] && m'[nId].nRandomPos == |v| && m'[nId].addr.ip !in mapAddr
    ensures RandomOk(m', v + [nId]) && AddrOk(m', mapAddr[m'[nId].addr.ip := nId])
  {
    assert m'.Keys == m.Keys + {nId};
    var v' := v + [nId];
    forall i | 0 <= i < |v'| ensures v'[i] in m' && m'[v'[i]].nRandomPos == i {
      assert i < |v| ==> v'[i] == v[i] && v[i] in m;
    }
  }

  lemma FourAtMost(a: int, b: int, c: int, d: int)
    ensures |{a, b, c, d}| <= 4
  {
  }

  lemma Inhabited(a: set<int>)
    ensures a == {} || exists x :: x in a
  {
    if !exists x :: x in a {
      assert a == {};
    }
  }

  lemma {:induction false} Subset(a: set<int>, b: set<int>)
    requires a <= b
    ensures |a| <= |b|
  {
    if a != {} {
      Inhabited(a);
      var x :| x in a;
      Subset(a - {x}, b - {x});
    }
  }

  lemma OnceInBucket(m: Infos, vvTried: seq<seq<int>>, b: nat)
    requires TriedOk(m, vvTried) && b < |vvTried|
    ensures Distinct(vvTried[b])
  {
    var v := vvTried[b];
    forall i, j | 0 <= i < j < |v| ensures v[i] != v[j] {
      if v[i] == v[j] {
        BucketWithin(vvTried, b, v[i]);
        Twice(v, i, j);
      }
    }
  }

  lemma Twice(v: seq<int>, i: nat, j: nat)
    requires i < j < |v| && v[i] == v[j]
    ensures multiset(v)[v[i]] >= 2
  {
    assert v == v[..j] + v[j..];
    assert v[i] in v[..j] && v[i] in v[j..];
  }

  lemma {:induction false} BucketWithin(vv: seq<seq<int>>, b: nat, n: int)
    requires b < |vv|
    ensures multiset(vv[b])[n] <= AllOf(vv)[n]
  {
    if b < |vv| - 1 {
      BucketWithin(vv[..|vv| - 1], b, n);
    }
  }

  lemma TriedCount(m: Infos, vvTried: seq<seq<int>>)
    requires TriedOk(m, vvTried)
    ensures |vvTried| == TRIED_BUCKET_COUNT
  {
  }

  lemma CapOf(m: Infos, vvNew: seq<set<int>>, ahead: int, b: nat)
    requires NewOk(m, vvNew, ahead) && b < NEW_BUCKET_COUNT
    ensures |vvNew| == NEW_BUCKET_COUNT && |vvNew[b]| <= NEW_BUCKET_SIZE
  {
  }

  lemma CountOf(m: Infos, vvNew: seq<set<int>>, n: int)
    requires NewOk(m, vvNew, -1) && n in m
    ensures InBuckets(vvNew, n) == m[n].nRefCount
  {
  }

  lemma SameTried(m: Infos, m': Infos, vvTried: seq<seq<int>>)
    requires TriedOk(m, vvTried) && m.Keys == m'.Keys && forall n :: n in m ==> m'[n].fInTried == m[n].fInTried
    ensures TriedOk(m', vvTried)
  {
    assert forall n :: n in m <==> n in m'.Keys;
  }

  lemma PlacesWithout(m: Infos, m': Infos, n: int)
    requires SameButPlace(m, m')
    ensures SameButPlace(m - {n}, m' - {n})
  {
    assert (m - {n}).Keys == m.Keys - {n} && (m' - {n}).Keys == m'.Keys - {n};
  }

  lemma SamePlaces(m: Infos)
    ensures SameButPlace(m, m)
  {
  }

  /** The entry at a place, as it was before the shuffling. */
  lemma Answered(m: Infos, m': Infos, v: seq<int>, n: nat, nIdCount: int)
    requires RandomOk(m', v) && SameButPlace(m, m') && n < |v|
    requires EntriesOk(m, nIdCount, -1)
    ensures v[n] in m && v[n] in m' && m'[v[n]].nTime == m[v[n]].nTime >= 0
    ensures AddressOf(m'[v[n]]) == AddressOf(m[v[n]])
  {
    assert v[n] in m.Keys;
    assert EntryOk(m[v[n]], v[n] == -1);
    var a, b := m[v[n]].(nRandomPos := 0), m'[v[n]].(nRandomPos := 0);
    assert a == b && a.nTime == m[v[n]].nTime && b.nTime == m'[v[n]].nTime;
    assert a.addr == m[v[n]].addr && b.addr == m'[v[n]].addr;
    assert a.nServices == m[v[n]].nServices && b.nServices == m'[v[n]].nServices;
  }

  lemma PlacesCompose(m: Infos, m1: Infos, m2: Infos)
    requires SameButPlace(m, m1) && SameButPlace(m1, m2)
    ensures SameButPlace(m, m2)
  {
    forall n | n in m ensures m2[n].(nRandomPos := 0) == m[n].(nRandomPos := 0) {
      assert n in m1.Keys;
    }
  }

  lemma PlacesKeep(m: Infos, m': Infos, mapAddr: map<nat, int>, vvTried: seq<seq<int>>, vvNew: seq<set<int>>,
                   nIdCount: int, nTried: int, nNew: int)
    requires SameButPlace(m, m') && EntriesOk(m, nIdCount, -1)
    requires AddrOk(m, mapAddr) && TriedOk(m, vvTried) && NewOk(m, vvNew, -1) && CountsOk(m, nTried, nNew)
    ensures EntriesOk(m', nIdCount, -1)
    ensures AddrOk(m', mapAddr) && TriedOk(m', vvTried) && NewOk(m', vvNew, -1) && CountsOk(m', nTried, nNew)
  {
    hide AddrOk, TriedOk, NewOk, CountsOk;
    PlaceFields(m, m');
    CoreKeeps(m, m', mapAddr, vvTried, vvNew, -1, nTried, nNew);
  }

  /** The answers so far are the entries at the first places. */
  ghost predicate AnswersOk(m: Infos, v: seq<int>, vAddr: seq<Address>) {
    |vAddr| <= |v| && forall i :: 0 <= i < |vAddr| ==>
      v[i] in m && m[v[i]].nTime >= 0 && vAddr[i] == AddressOf(m[v[i]])
  }

  lemma NoAnswers(m: Infos, v: seq<int>)
    ensures AnswersOk(m, v, [])
  {
  }

  lemma OneMoreAnswer(m: Infos, v: seq<int>, v': seq<int>, vAddr: seq<Address>, a: Address)
    requires AnswersOk(m, v, vAddr) && |vAddr| < |v'| == |v|
    requires forall i :: 0 <= i < |vAddr| ==> v'[i] == v[i]
    requires v'[|vAddr|] in m && m[v'[|vAddr|]].nTime >= 0 && a == AddressOf(m[v'[|vAddr|]])
    ensures AnswersOk(m, v', vAddr + [a])
  {
  }

  /** Distinct places in vRandom hold entries with distinct addresses. */
  lemma DistinctAddresses(m: Infos, m': Infos, v: seq<int>, vAddr: seq<Address>, mapAddr: map<nat, int>)
    requires AddrOk(m, mapAddr) && RandomOk(m', v) && SameButPlace(m, m') && AnswersOk(m, v, vAddr)
    ensures |vAddr| <= |v| && forall i :: 0 <= i < |vAddr| ==>
              v[i] in m && m[v[i]].nTime >= 0 && vAddr[i] == AddressOf(m[v[i]])
    ensures forall i, j :: 0 <= i < j < |vAddr| ==> vAddr[i].addr.ip != vAddr[j].addr.ip
  {
    forall i, j | 0 <= i < j < |vAddr| ensures m[v[i]].addr.ip != m[v[j]].addr.ip {
      assert v[i] in m'.Keys && v[j] in m'.Keys;
      assert v[i] != v[j];
    }
  }

  /** m' is m with one reference to n less, n itself gone with the last. */
  ghost predicate Dropped(m: Infos, m': Infos, n: int) {
    && n in m
    && m'.Keys == (if m[n].nRefCount == 1 then m.Keys - {n} else m.Keys)
    && forall k :: k in m' ==>
         m'[k].(nRandomPos := 0) ==
         (if k == n then m[k].(nRandomPos := 0, nRefCount := m[k].nRefCount - 1) else m[k].(nRandomPos := 0))
  }

  lemma BucketCount(m: Infos, vvNew: seq<set<int>>, ahead: int)
    requires NewOk(m, vvNew, ahead)
    ensures |vvNew| == NEW_BUCKET_COUNT
  {
  }

  lemma DroppedOthers(m: Infos, m': Infos, n: int, k: int)
    requires Dropped(m, m', n) && k in m && k != n
    ensures k in m'
  {
    assert k in m'.Keys;
  }

  /** An entry found in a new bucket exists, is not tried and is counted. */
  lemma BucketedIsNew(m: Infos, vvNew: seq<set<int>>, ahead: int, nIdCount: int, b: nat, n: int)
    requires NewOk(m, vvNew, ahead) && EntriesOk(m, nIdCount, -1) && b < |vvNew| && n in vvNew[b]
    ensures n in m && !m[n].fInTried && m[n].nRefCount >= 1
  {
    InNoBucket(vvNew, n);
  }

  lemma DecrementKeeps(m: Infos, v: seq<int>, mapAddr: map<nat, int>, nTried: int, nNew: int, n: int)
    requires RandomOk(m, v) && AddrOk(m, mapAddr) && CountsOk(m, nTried, nNew) && n in m
    ensures var m' := m[n := m[n].(nRefCount := m[n].nRefCount - 1)];
            RandomOk(m', v) && AddrOk(m', mapAddr) && CountsOk(m', nTried, nNew)
  {
    var m' := m[n := m[n].(nRefCount := m[n].nRefCount - 1)];
    assert m'.Keys == m.Keys;
    SameFlags(m, m');
  }

  lemma SwapKeepsAddr(m: Infos, m': Infos, mapAddr: map<nat, int>, nTried: int, nNew: int)
    requires SameButPlace(m, m') && AddrOk(m, mapAddr) && CountsOk(m, nTried, nNew)
    ensures AddrOk(m', mapAddr) && CountsOk(m', nTried, nNew)
  {
    PlaceFields(m, m');
    SameFlags(m, m');
  }

  lemma PlaceFields(m: Infos, m': Infos)
    requires SameButPlace(m, m')
    ensures SameCore(m, m')
    ensures forall n :: n in m <==> n in m'
    ensures forall n :: n in m ==> m'[n].nLastSuccess == m[n].nLastSuccess && m'[n].nLastTry == m[n].nLastTry
                                   && m'[n].nTime == m[n].nTime
  {
    assert forall n :: n in m <==> n in m';
    forall n | n in m
      ensures m'[n].addr == m[n].addr && m'[n].fInTried == m[n].fInTried && m'[n].nRefCount == m[n].nRefCount
      ensures m'[n].nLastSuccess == m[n].nLastSuccess && m'[n].nLastTry == m[n].nLastTry
      ensures m'[n].nTime == m[n].nTime
    {
      assert m'[n].(nRandomPos := 0).addr == m[n].(nRandomPos := 0).addr;
    }
  }

  lemma DropKeeps(m: Infos, m': Infos, vvTried: seq<seq<int>>, vvNew: seq<set<int>>, ahead: int, nIdCount: int,
                  b: nat, n: int)
    requires TriedOk(m, vvTried) && NewOk(m, vvNew, ahead) && EntriesOk(m, nIdCount, -1)
    requires b < |vvNew| && n in vvNew[b] && Dropped(m, m', n) && !m[n].fInTried && m[n].nRefCount >= 1
    ensures TriedOk(m', vvTried) && EntriesOk(m', nIdCount, -1)
    ensures NewOk(m', vvNew[b := vvNew[b] - {n}], ahead)
  {
    forall k | k in m'
      ensures k in m && m'[k].fInTried == m[k].fInTried
      ensures m'[k].nRefCount == m[k].nRefCount - (if k == n then 1 else 0)
      ensures m'[k].nLastSuccess == m[k].nLastSuccess && m'[k].nLastTry == m[k].nLastTry && m'[k].nTime == m[k].nTime
    {
      assert m'[k].(nRandomPos := 0).fInTried == m[k].fInTried;
      assert m'[k].(nRandomPos := 0).nRefCount == m[k].nRefCount - (if k == n then 1 else 0);
      assert m'[k].(nRandomPos := 0).nLastSuccess == m[k].nLastSuccess;
    }
    forall k | k in m && k != n ensures k in m' {
      assert k in m'.Keys;
    }
    assert n in m' <==> n in m'.Keys;
    BucketDelete(m, m', vvNew, ahead, b, n);
  }

  /** Equal up to nRandomPos. */
  ghost predicate SameButPlace(m: Infos, m': Infos) {
    && m'.Keys == m.Keys
    && forall n :: n in m ==> m'[n].(nRandomPos := 0) == m[n].(nRandomPos := 0)
  }
}
