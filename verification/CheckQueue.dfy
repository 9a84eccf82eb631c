/** CCheckQueue: one master and N workers around a mutex. The critical sections of Loop and Add are functions of the
    shared state, run by a class in place, and interleaved by a transition system. */
module CheckQueue {

  /** A verification; running it yields `passes`. */
  datatype Check = Check(passes: bool)

  predicate AllPass(checks: seq<Check>) {
    forall i :: 0 <= i < |checks| ==> checks[i].passes
  }

  /** What the mutex protects. */
  datatype Shared = Shared(queue: seq<Check>, nIdle: int, nTotal: int, nTodo: int, fAllOk: bool, fQuit: bool)

  /** How a critical section ends: the thread returns, waits on its condition variable, or leaves with a batch. */
  datatype Exit = Return(fRet: bool) | Sleep | Work(batch: seq<Check>, fOk: bool)

  function Max(a: int, b: int): int { if a < b then b else a }
  function Min(a: int, b: int): int { if a < b then a else b }

  function BatchSize(nBatchSize: nat, sh: Shared): nat
    requires 0 <= sh.nTotal && 0 <= sh.nIdle
  {
    Max(1, Min(nBatchSize, |sh.queue| / (sh.nTotal + sh.nIdle + 1)))
  }

  function Reversed(s: seq<Check>): (r: seq<Check>)
    ensures |r| == |s|
  {
    if s == [] then [] else [s[|s| - 1]] + Reversed(s[..|s| - 1])
  }

  /** The loop head of Loop: return, sleep or take a batch off the back of the queue. */
  function Head(nBatchSize: nat, sh: Shared, fMaster: bool): (Shared, Exit)
    requires 0 <= sh.nTotal && 0 <= sh.nIdle
  {
    if sh.queue == [] then
      if (fMaster || sh.fQuit) && sh.nTodo == 0
      then (sh.(nTotal := sh.nTotal - 1, fAllOk := if fMaster then true else sh.fAllOk), Return(sh.fAllOk))
      else (sh.(nIdle := sh.nIdle + 1), Sleep)
    else
      var nNow := Min(BatchSize(nBatchSize, sh), |sh.queue|);
      var cut := |sh.queue| - nNow;
      (sh.(queue := sh.queue[..cut]), Work(Reversed(sh.queue[cut..]), sh.fAllOk))
  }

  function Reported(sh: Shared, nNow: nat, fOk: bool): Shared {
    sh.(fAllOk := sh.fAllOk && fOk, nTodo := sh.nTodo - nNow)
  }

  function Queued(sh: Shared, vChecks: seq<Check>): Shared {
    sh.(queue := sh.queue + vChecks, nTodo := sh.nTodo + |vChecks|)
  }

  /** A batch never exceeds the queue, so popping it is safe. */
  lemma BatchFits(nBatchSize: nat, sh: Shared)
    requires 0 <= sh.nTotal && 0 <= sh.nIdle && sh.queue != []
    ensures 1 <= BatchSize(nBatchSize, sh) <= |sh.queue|
  {
    var d := sh.nTotal + sh.nIdle + 1;
    assert |sh.queue| / d <= |sh.queue| by {
      assert |sh.queue| / d * d <= |sh.queue|;
    }
  }

  /** A batch of more than one check leaves as much for every other thread, and is the largest within nBatchSize that
      does. */
  lemma BatchShares(nBatchSize: nat, sh: Shared, k: nat)
    requires 0 <= sh.nTotal && 0 <= sh.nIdle
    ensures var n, others := BatchSize(nBatchSize, sh), sh.nTotal + sh.nIdle;
            && (n == 1 || (n <= nBatchSize && n * others <= |sh.queue| - n))
            && (1 <= k <= nBatchSize && k * others <= |sh.queue| - k ==> k <= n)
  {
    var d := sh.nTotal + sh.nIdle + 1;
    var n := BatchSize(nBatchSize, sh);
    Quotient(|sh.queue|, d, n);
    Quotient(|sh.queue|, d, k);
    assert n * d == n * (d - 1) + n && k * d == k * (d - 1) + k;
  }

  lemma Quotient(total: nat, d: nat, k: nat)
    requires d > 0
    ensures k * d <= total <==> k <= total / d
  {
    var q := total / d;
    assert q * d <= total < q * d + d;
    if k <= q {
      assert k * d <= q * d;
    } else {
      assert k * d >= (q + 1) * d == q * d + d;
    }
  }

  // ---------- the critical sections in place

  class Monitor {
    var queue: seq<Check>
    var nIdle: int
    var nTotal: int
    var nTodo: int
    var fAllOk: bool
    var fQuit: bool
    const nBatchSize: nat

    function View(): Shared
      reads this
    {
      Shared(queue, nIdle, nTotal, nTodo, fAllOk, fQuit)
    }

    constructor (nBatchSizeIn: nat)
      ensures View() == Shared([], 0, 0, 0, true, false) && nBatchSize == nBatchSizeIn
    {
      queue, nIdle, nTotal, nTodo, fAllOk, fQuit := [], 0, 0, 0, true, false;
      nBatchSize := nBatchSizeIn;
    }

    method Add(vChecks: seq<Check>)
      modifies this
      ensures View() == Queued(old(View()), vChecks)
    {
      for i := 0 to |vChecks|
        invariant View() == old(View()).(queue := old(queue) + vChecks[..i])
      {
        queue := queue + [vChecks[i]];
      }
      assert vChecks[..|vChecks|] == vChecks;
      nTodo := nTodo + |vChecks|;
    }

    /** Reports the batch a thread comes back with, or counts it in on its first entry. True when the master must be
        notified. */
    method CleanUp(nNow: nat, fOk: bool, fMaster: bool) returns (notifyMaster: bool)
      modifies this
      ensures View() == if nNow == 0 then old(View()).(nTotal := old(nTotal) + 1) else Reported(old(View()), nNow, fOk)
      ensures notifyMaster <==> nNow != 0 && nTodo == 0 && !fMaster
    {
      notifyMaster := false;
      if nNow != 0 {
        fAllOk := fAllOk && fOk;
        nTodo := nTodo - nNow;
        if nTodo == 0 && !fMaster {
          notifyMaster := true;
        }
      } else {
        nTotal := nTotal + 1;
      }
    }

    /** Back from cond.wait. */
    method WokenUp()
      modifies this
      ensures View() == old(View()).(nIdle := old(nIdle) - 1)
    {
      nIdle := nIdle - 1;
    }

    /** Moves a batch off the back of the queue, last check first. */
    method TakeBatch() returns (vChecks: seq<Check>)
      requires 0 <= nTotal && 0 <= nIdle && queue != []
      modifies this`queue
      ensures var cut := |old(queue)| - Min(BatchSize(nBatchSize, old(View())), |old(queue)|);
              queue == old(queue)[..cut] && vChecks == Reversed(old(queue)[cut..])
    {
      ghost var all := queue;
      var nNow := BatchSize(nBatchSize, View());
      BatchFits(nBatchSize, View());
      vChecks := [];
      for i := 0 to nNow
        invariant |queue| == |all| - i && queue == all[..|all| - i]
        invariant vChecks == Reversed(all[|all| - i..])
      {
        ReversedCons(all, |all| - i - 1);
        vChecks := vChecks + [queue[|queue| - 1]];
        queue := queue[..|queue| - 1];
      }
    }

    /** From the loop head to the end of the critical section or to cond.wait. */
    method LoopHead(fMaster: bool) returns (exit: Exit)
      requires 0 <= nTotal && 0 <= nIdle
      modifies this
      ensures (View(), exit) == Head(nBatchSize, old(View()), fMaster)
    {
      if queue == [] {
        if (fMaster || fQuit) && nTodo == 0 {
          nTotal := nTotal - 1;
          var fRet := fAllOk;
          if fMaster {
            fAllOk := true;
          }
          return Return(fRet);
        }
        nIdle := nIdle + 1;
        return Sleep;
      }
      var vChecks := TakeBatch();
      return Work(vChecks, fAllOk);
    }
  }

  lemma {:induction false} ReversedAppend(a: seq<Check>, b: seq<Check>)
    ensures Reversed(a + b) == Reversed(b) + Reversed(a)
  {
    if b == [] {
      assert a + b == a;
    } else {
      assert (a + b)[..|a + b| - 1] == a + b[..|b| - 1];
      ReversedAppend(a, b[..|b| - 1]);
    }
  }

  lemma ReversedCons(all: seq<Check>, k: nat)
    requires k < |all|
    ensures Reversed(all[k..]) == Reversed(all[k + 1..]) + [all[k]]
  {
    assert all[k..] == [all[k]] + all[k + 1..];
    ReversedAppend([all[k]], all[k + 1..]);
    assert Reversed([all[k]]) == [all[k]];
  }

  lemma AllPassConcat(a: seq<Check>, b: seq<Check>)
    ensures AllPass(a + b) <==> AllPass(a) && AllPass(b)
  {
    if AllPass(a + b) {
      forall i | 0 <= i < |a| ensures a[i].passes {
        assert (a + b)[i] == a[i];
      }
      forall i | 0 <= i < |b| ensures b[i].passes {
        assert (a + b)[|a| + i] == b[i];
      }
    }
  }

  lemma {:induction false} ReversedPasses(s: seq<Check>)
    ensures AllPass(Reversed(s)) <==> AllPass(s)
  {
    if s != [] {
      var front, last := s[..|s| - 1], [s[|s| - 1]];
      ReversedPasses(front);
      AllPassConcat(last, Reversed(front));
      AllPassConcat(front, last);
      assert s == front + last;
    }
  }
}
